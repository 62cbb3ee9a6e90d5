/**
  The account serializer: the declared field constraints checked on a request,
  the output a stored account is rendered to, and the three store writes
  (`create`, `update` as a partial merge, `delete`).

  The user table is a map from id to row. An `Account` is the in-memory model
  instance: `update` assigns its fields one by one and then saves it.
*/
module Serializers {
  import opened Wrappers

  datatype Date = Date(year: int, month: int, day: int)

  /** A key of the request data or of `validated_data`: missing, or present with a value. */
  datatype Field<+T> = Absent | Present(value: T) {
    /** `dict.get(key, default)` */
    function GetOr(default: T): T {
      if Present? then value else default
    }
  }

  datatype FieldName =
    | Id | Username | FirstName | LastName | Email | Password
    | Birthdate | NationalId | PhoneNumber | Wallet

  /** A stored account; `wallet` is in cents. */
  datatype AccountRecord = AccountRecord(
    id: nat,
    username: string,
    firstName: string,
    lastName: string,
    email: string,
    password: string,
    birthdate: Option<Date>,
    nationalId: Option<int>,
    phoneNumber: string,
    wallet: int)

  // ---------------------------------------------------------------------
  // Declared field constraints

  const UsernameMaxLength: nat := 150
  const FirstNameMaxLength: nat := 30
  const LastNameMaxLength: nat := 150
  const PhoneNumberMaxLength: nat := 20
  /** `max_digits=12, decimal_places=2`: at most 10 whole digits, so a cent amount below 10^12 in size */
  const WalletCentsBound: int := 1_000_000_000_000

  /** The request body: each key missing or present, a present value possibly JSON null (None). */
  datatype Payload = Payload(
    id: Field<Option<int>>,
    username: Field<Option<string>>,
    firstName: Field<Option<string>>,
    lastName: Field<Option<string>>,
    email: Field<Option<string>>,
    password: Field<Option<string>>,
    birthdate: Field<Option<Date>>,
    nationalId: Field<Option<int>>,
    phoneNumber: Field<Option<string>>,
    wallet: Field<Option<int>>)

  /** `validated_data`: the writable fields that survived validation (`id` is read-only). */
  datatype ValidatedData = ValidatedData(
    username: Field<string>,
    firstName: Field<string>,
    lastName: Field<string>,
    email: Field<string>,
    password: Field<string>,
    birthdate: Field<Option<Date>>,
    nationalId: Field<Option<int>>,
    phoneNumber: Field<string>,
    wallet: Field<int>)

  const NoChanges := ValidatedData(Absent, Absent, Absent, Absent, Absent, Absent, Absent, Absent, Absent)

  const EmptyPayload := Payload(Absent, Absent, Absent, Absent, Absent, Absent, Absent, Absent, Absent, Absent)

  /** One field's outcome: its entry in `validated_data` (Absent when skipped), or an error. */
  datatype Checked<T> = Valid(entry: Field<T>) | Invalid

  /**
    A character field that does not allow null: a missing key is an error only
    when the field is required and the validation is not partial; a blank value
    is returned at once when blank is allowed and is an error otherwise; then
    the maximum length and the field's own validator apply.
  */
  function CheckText(raw: Field<Option<string>>, partial: bool, required: bool, allowBlank: bool,
                     maxLength: Option<nat>, validator: string -> bool): (r: Checked<string>)
    ensures r.Valid? ==> r.entry == Strip(raw)
    ensures r.Valid? <==> && NotNull(raw)
                          && (raw.Absent? ==> partial || !required)
                          && (Strip(raw).Present? ==> TextAccepted(Strip(raw).value, allowBlank, maxLength, validator))
  {
    match raw
    case Absent => if !partial && required then Invalid else Valid(Absent)
    case Present(None) => Invalid
    case Present(Some(s)) =>
      if s == "" then (if allowBlank then Valid(Present("")) else Invalid)
      else if maxLength.Some? && |s| > maxLength.value then Invalid
      else if !validator(s) then Invalid
      else Valid(Present(s))
  }

  /** A non-null text value passes the blank check, the maximum length and the field's validator. */
  predicate TextAccepted(s: string, allowBlank: bool, maxLength: Option<nat>, validator: string -> bool) {
    if s == "" then allowBlank
    else (maxLength.Some? ==> |s| <= maxLength.value) && validator(s)
  }

  /** An optional field that allows null: every present value, null included, is kept. */
  function CheckNullable<T>(raw: Field<Option<T>>): Checked<Option<T>> {
    match raw
    case Absent => Valid(Absent)
    case Present(v) => Valid(Present(v))
  }

  /** The optional, non-null decimal `wallet`, in cents. */
  function CheckWallet(raw: Field<Option<int>>): (r: Checked<int>)
    ensures r.Valid? ==> r.entry == Strip(raw)
    ensures r.Valid? <==> NotNull(raw) && (Strip(raw).Present? ==> -WalletCentsBound < Strip(raw).value < WalletCentsBound)
  {
    match raw
    case Absent => Valid(Absent)
    case Present(None) => Invalid
    case Present(Some(c)) => if -WalletCentsBound < c < WalletCentsBound then Valid(Present(c)) else Invalid
  }

  function ErrorIf<T>(c: Checked<T>, name: FieldName): set<FieldName> {
    if c.Invalid? then {name} else {}
  }

  /**
    Every character field also rejects the null character. (Its other
    built-in check, against surrogate code points, holds of every Dafny
    `char`, which is a Unicode scalar value.)
  */
  predicate NoNullCharacter(s: string) {
    '\0' !in s
  }

  /**
    `is_valid()` on the request body. `emailValid` stands for the e-mail
    field's own validator. The result is `validated_data`, or the set of
    fields that failed.
  */
  function Validate(p: Payload, partial: bool, emailValid: string -> bool): (r: Result<ValidatedData, set<FieldName>>)
    ensures r.Success? <==> NoNulls(p) && WithinDeclaredBounds(Candidate(p), emailValid)
                            && (!partial ==> HasRequired(Candidate(p)))
    ensures r.Success? ==> r.value == Candidate(p)
    ensures r.Failure? ==> r.error != {}
  {
    var plainText := (s: string) => NoNullCharacter(s);
    var emailText := (s: string) => NoNullCharacter(s) && emailValid(s);
    var u := CheckText(p.username, partial, true, false, Some(UsernameMaxLength), plainText);
    var fn := CheckText(p.firstName, partial, false, true, Some(FirstNameMaxLength), plainText);
    var ln := CheckText(p.lastName, partial, false, true, Some(LastNameMaxLength), plainText);
    var em := CheckText(p.email, partial, true, false, None, emailText);
    var pw := CheckText(p.password, partial, true, false, None, plainText);
    var bd := CheckNullable(p.birthdate);
    var ni := CheckNullable(p.nationalId);
    var ph := CheckText(p.phoneNumber, partial, true, false, Some(PhoneNumberMaxLength), plainText);
    var wa := CheckWallet(p.wallet);
    var errors := ErrorIf(u, Username) + ErrorIf(fn, FirstName) + ErrorIf(ln, LastName)
                  + ErrorIf(em, Email) + ErrorIf(pw, Password) + ErrorIf(bd, Birthdate)
                  + ErrorIf(ni, NationalId) + ErrorIf(ph, PhoneNumber) + ErrorIf(wa, Wallet);
    if u.Valid? && fn.Valid? && ln.Valid? && em.Valid? && pw.Valid? && ph.Valid? && wa.Valid? then
      Success(ValidatedData(u.entry, fn.entry, ln.entry, em.entry, pw.entry, bd.entry, ni.entry, ph.entry, wa.entry))
    else
      Failure(errors)
  }

  /** A present JSON null becomes missing; everything else is kept as it is. */
  function Strip<T>(raw: Field<Option<T>>): Field<T> {
    match raw
    case Present(Some(v)) => Present(v)
    case _ => Absent
  }

  /** The request body read as `validated_data`, before any check: `id` dropped, nulls of non-null fields dropped. */
  function Candidate(p: Payload): ValidatedData {
    ValidatedData(Strip(p.username), Strip(p.firstName), Strip(p.lastName), Strip(p.email), Strip(p.password),
                  p.birthdate, p.nationalId, Strip(p.phoneNumber), Strip(p.wallet))
  }

  predicate NotNull<T>(raw: Field<Option<T>>) {
    !(raw.Present? && raw.value.None?)
  }

  /** No field that disallows null was sent as null. */
  predicate NoNulls(p: Payload) {
    && NotNull(p.username) && NotNull(p.firstName) && NotNull(p.lastName) && NotNull(p.email)
    && NotNull(p.password) && NotNull(p.phoneNumber) && NotNull(p.wallet)
  }

  /** The declared bounds, on every field that is present. */
  predicate WithinDeclaredBounds(v: ValidatedData, emailValid: string -> bool) {
    && (v.username.Present? ==> 0 < |v.username.value| <= UsernameMaxLength && NoNullCharacter(v.username.value))
    && (v.firstName.Present? ==> |v.firstName.value| <= FirstNameMaxLength && NoNullCharacter(v.firstName.value))
    && (v.lastName.Present? ==> |v.lastName.value| <= LastNameMaxLength && NoNullCharacter(v.lastName.value))
    && (v.email.Present? ==> v.email.value != "" && NoNullCharacter(v.email.value) && emailValid(v.email.value))
    && (v.password.Present? ==> v.password.value != "" && NoNullCharacter(v.password.value))
    && (v.phoneNumber.Present? ==> 0 < |v.phoneNumber.value| <= PhoneNumberMaxLength
                                   && NoNullCharacter(v.phoneNumber.value))
    && (v.wallet.Present? ==> -WalletCentsBound < v.wallet.value < WalletCentsBound)
  }

  /** The fields declared without `required=False`. */
  predicate HasRequired(v: ValidatedData) {
    v.username.Present? && v.email.Present? && v.password.Present? && v.phoneNumber.Present?
  }

  /** A full (non-partial) validation reports every missing required field. */
  lemma MissingRequiredFails(p: Payload, emailValid: string -> bool)
    ensures p.username.Absent? ==> Validate(p, false, emailValid).Failure? && Username in Validate(p, false, emailValid).error
    ensures p.email.Absent? ==> Validate(p, false, emailValid).Failure? && Email in Validate(p, false, emailValid).error
    ensures p.password.Absent? ==> Validate(p, false, emailValid).Failure? && Password in Validate(p, false, emailValid).error
    ensures p.phoneNumber.Absent? ==> Validate(p, false, emailValid).Failure? && PhoneNumber in Validate(p, false, emailValid).error
  {
  }

  /** A username holding a null character fails validation, partial or not, and is named. */
  lemma NullCharacterRejected(p: Payload, partial: bool, emailValid: string -> bool)
    requires p.username.Present? && p.username.value.Some? && '\0' in p.username.value.value
    ensures Validate(p, partial, emailValid).Failure?
    ensures Username in Validate(p, partial, emailValid).error
  {
  }

  /** `id` is read-only: whatever the body says about it changes nothing. */
  lemma IdIsIgnored(p: Payload, id: Field<Option<int>>, partial: bool, emailValid: string -> bool)
    ensures Validate(p.(id := id), partial, emailValid) == Validate(p, partial, emailValid)
  {
  }

  // ---------------------------------------------------------------------
  // update as a merge, create as a merge over the model's defaults

  /** After `update`, a field is the supplied value when one was supplied and its old value otherwise. */
  predicate Overrides<T(==)>(supplied: Field<T>, before: T, after: T) {
    if supplied.Present? then after == supplied.value else after == before
  }

  /** The record `update` leaves behind. */
  function Merge(r: AccountRecord, d: ValidatedData): AccountRecord {
    r.(username := d.username.GetOr(r.username),
       firstName := d.firstName.GetOr(r.firstName),
       lastName := d.lastName.GetOr(r.lastName),
       email := d.email.GetOr(r.email),
       birthdate := d.birthdate.GetOr(r.birthdate),
       nationalId := d.nationalId.GetOr(r.nationalId),
       phoneNumber := d.phoneNumber.GetOr(r.phoneNumber),
       wallet := d.wallet.GetOr(r.wallet))
  }

  /** Every supplied field replaces the old value, every other keeps it; `id` and `password` never change. */
  lemma MergeSpec(r: AccountRecord, d: ValidatedData)
    ensures var m := Merge(r, d);
      && Overrides(d.username, r.username, m.username)
      && Overrides(d.firstName, r.firstName, m.firstName)
      && Overrides(d.lastName, r.lastName, m.lastName)
      && Overrides(d.email, r.email, m.email)
      && Overrides(d.birthdate, r.birthdate, m.birthdate)
      && Overrides(d.nationalId, r.nationalId, m.nationalId)
      && Overrides(d.phoneNumber, r.phoneNumber, m.phoneNumber)
      && Overrides(d.wallet, r.wallet, m.wallet)
      && m.id == r.id
      && m.password == r.password
  {
  }

  /** Applying the same data twice is applying it once. */
  lemma MergeIdempotent(r: AccountRecord, d: ValidatedData)
    ensures Merge(Merge(r, d), d) == Merge(r, d)
  {
  }

  /** An update with nothing supplied leaves the record as it was. */
  lemma MergeNoChanges(r: AccountRecord)
    ensures Merge(r, NoChanges) == r
  {
  }

  /** A partial update with an empty body validates, and leaves the record as it was. */
  lemma EmptyPartialUpdate(r: AccountRecord, emailValid: string -> bool)
    ensures Validate(EmptyPayload, true, emailValid) == Success(NoChanges)
    ensures Merge(r, NoChanges) == r
  {
  }

  /** A partial update changes exactly the fields the body sends; the password is never one of them. */
  lemma PartialUpdateFromPayload(r: AccountRecord, p: Payload, emailValid: string -> bool)
    requires Validate(p, true, emailValid).Success?
    ensures var m := Merge(r, Validate(p, true, emailValid).value);
      && m.id == r.id && m.password == r.password
      && (p.username.Absent? ==> m.username == r.username)
      && (p.username.Present? ==> Some(m.username) == p.username.value)
      && (p.firstName.Absent? ==> m.firstName == r.firstName)
      && (p.firstName.Present? ==> Some(m.firstName) == p.firstName.value)
      && (p.lastName.Absent? ==> m.lastName == r.lastName)
      && (p.lastName.Present? ==> Some(m.lastName) == p.lastName.value)
      && (p.email.Absent? ==> m.email == r.email)
      && (p.email.Present? ==> Some(m.email) == p.email.value)
      && (p.birthdate.Absent? ==> m.birthdate == r.birthdate)
      && (p.birthdate.Present? ==> m.birthdate == p.birthdate.value)
      && (p.nationalId.Absent? ==> m.nationalId == r.nationalId)
      && (p.nationalId.Present? ==> m.nationalId == p.nationalId.value)
      && (p.phoneNumber.Absent? ==> m.phoneNumber == r.phoneNumber)
      && (p.phoneNumber.Present? ==> Some(m.phoneNumber) == p.phoneNumber.value)
      && (p.wallet.Absent? ==> m.wallet == r.wallet)
      && (p.wallet.Present? ==> Some(m.wallet) == p.wallet.value)
  {
  }

  /** The values a row takes for the keys `validated_data` lacks (the model's field defaults). */
  function Defaults(id: nat): AccountRecord {
    AccountRecord(id, "", "", "", "", "", None, None, "", 0)
  }

  /** The row `User.objects.create(**validated_data)` inserts under a fresh id. */
  function NewRecord(id: nat, d: ValidatedData): AccountRecord {
    Merge(Defaults(id).(password := d.password.GetOr("")), d)
  }

  /**
    After a full validation, `create` stores every value of the body as it is
    and the password verbatim (nothing here hashes it); the id is the store's.
  */
  lemma CreateFromValidPayload(p: Payload, emailValid: string -> bool, id: nat)
    requires Validate(p, false, emailValid).Success?
    ensures var n := NewRecord(id, Validate(p, false, emailValid).value);
      && n.id == id
      && Some(n.password) == p.password.value
      && Some(n.username) == p.username.value
      && Some(n.email) == p.email.value
      && Some(n.phoneNumber) == p.phoneNumber.value
      && (p.firstName.Absent? ==> n.firstName == "")
      && (p.firstName.Present? ==> Some(n.firstName) == p.firstName.value)
      && (p.lastName.Absent? ==> n.lastName == "")
      && (p.lastName.Present? ==> Some(n.lastName) == p.lastName.value)
      && (p.birthdate.Absent? ==> n.birthdate == None)
      && (p.birthdate.Present? ==> n.birthdate == p.birthdate.value)
      && (p.nationalId.Absent? ==> n.nationalId == None)
      && (p.nationalId.Present? ==> n.nationalId == p.nationalId.value)
      && (p.wallet.Absent? ==> n.wallet == 0)
      && (p.wallet.Present? ==> Some(n.wallet) == p.wallet.value)
  {
  }

  // ---------------------------------------------------------------------
  // Output

  /** A value of the rendered output; `Null` is JSON null. */
  datatype Value = Text(text: string) | Integer(n: int) | Day(date: Date) | Null | Cents(cents: int)

  /** Every declared field except the write-only `password`. */
  const ReadableFields: set<FieldName> :=
    {Id, Username, FirstName, LastName, Email, Birthdate, NationalId, PhoneNumber, Wallet}

  function OptionalDate(d: Option<Date>): Value {
    if d.Some? then Day(d.value) else Null
  }

  function OptionalInteger(n: Option<int>): Value {
    if n.Some? then Integer(n.value) else Null
  }

  /** `serializer.data` for a stored account. */
  function Serialize(a: AccountRecord): (out: map<FieldName, Value>)
    ensures out.Keys == ReadableFields
    ensures Password !in out
  {
    map[Id := Integer(a.id), Username := Text(a.username), FirstName := Text(a.firstName),
        LastName := Text(a.lastName), Email := Text(a.email), Birthdate := OptionalDate(a.birthdate),
        NationalId := OptionalInteger(a.nationalId), PhoneNumber := Text(a.phoneNumber), Wallet := Cents(a.wallet)]
  }

  /** Two accounts render alike exactly when they differ at most in their password. */
  lemma SerializeHidesOnlyPassword(a: AccountRecord, b: AccountRecord)
    ensures Serialize(a) == Serialize(b) <==> a.(password := b.password) == b
  {
  }

  // ---------------------------------------------------------------------
  // The model instance and the table

  /** A `User` model instance, whose fields `update` assigns in place. */
  class Account {
    var id: nat
    var username: string
    var firstName: string
    var lastName: string
    var email: string
    var password: string
    var birthdate: Option<Date>
    var nationalId: Option<int>
    var phoneNumber: string
    var wallet: int

    /** The instance's current field values. */
    function Record(): AccountRecord
      reads this
    {
      AccountRecord(id, username, firstName, lastName, email, password, birthdate, nationalId, phoneNumber, wallet)
    }

    constructor (r: AccountRecord)
      ensures Record() == r
    {
      id, username, firstName, lastName, email := r.id, r.username, r.firstName, r.lastName, r.email;
      password, birthdate, nationalId, phoneNumber, wallet := r.password, r.birthdate, r.nationalId, r.phoneNumber, r.wallet;
    }
  }

  /** The user table: rows by id, and the id the next insert gets. */
  class Table {
    var rows: map<nat, AccountRecord>
    var nextId: nat

    /** Every row is stored under its own id, and every id in use lies below the next one. */
    ghost predicate Valid()
      reads this
    {
      forall k :: k in rows ==> k < nextId && rows[k].id == k
    }

    constructor ()
      ensures Valid() && rows == map[] && nextId == 1
    {
      rows, nextId := map[], 1;
    }

    /** `instance.save()`: the row under the instance's id becomes its current values. */
    method Save(a: Account)
      requires Valid()
      modifies this
      ensures Valid()
      ensures rows == old(rows)[a.id := a.Record()]
      ensures nextId == if a.id < old(nextId) then old(nextId) else a.id + 1
    {
      rows := rows[a.id := a.Record()];
      if nextId <= a.id {
        nextId := a.id + 1;
      }
    }

    /** `User.objects.create(**data)`: a new instance with a fresh id, saved. */
    method Insert(d: ValidatedData) returns (a: Account)
      requires Valid()
      modifies this
      ensures Valid() && fresh(a)
      ensures a.Record() == NewRecord(old(nextId), d)
      ensures a.id !in old(rows)
      ensures rows == old(rows)[a.id := a.Record()]
      ensures nextId == old(nextId) + 1
    {
      a := new Account(NewRecord(nextId, d));
      rows := rows[a.id := a.Record()];
      nextId := nextId + 1;
    }

    /** `Model.delete`: the instance's row is removed; the count of removed rows is returned. */
    method Remove(a: Account) returns (deleted: nat)
      requires Valid()
      modifies this
      ensures Valid()
      ensures rows == old(rows) - {a.id} && nextId == old(nextId)
      ensures deleted == if a.id in old(rows) then 1 else 0
    {
      deleted := if a.id in rows then 1 else 0;
      rows := rows - {a.id};
    }
  }

  // ---------------------------------------------------------------------
  // The serializer's store writes

  /** `UserSerializer.create`: the validated data goes to the store unchanged. */
  method Create(table: Table, validatedData: ValidatedData) returns (a: Account)
    requires table.Valid()
    modifies table
    ensures table.Valid() && fresh(a)
    ensures a.Record() == NewRecord(old(table.nextId), validatedData)
    ensures a.id !in old(table.rows)
    ensures table.rows == old(table.rows)[a.id := a.Record()]
    ensures table.nextId == old(table.nextId) + 1
  {
    a := table.Insert(validatedData);
  }

  /** `UserSerializer.update`: assign each supplied field in place, save, return the same instance. */
  method Update(table: Table, instance: Account, validatedData: ValidatedData) returns (r: Account)
    requires table.Valid()
    modifies instance, table
    ensures r == instance
    ensures instance.Record() == Merge(old(instance.Record()), validatedData)
    ensures table.Valid()
    ensures table.rows == old(table.rows)[instance.id := instance.Record()]
    ensures table.nextId == if instance.id < old(table.nextId) then old(table.nextId) else instance.id + 1
  {
    instance.username := validatedData.username.GetOr(instance.username);
    instance.firstName := validatedData.firstName.GetOr(instance.firstName);
    instance.lastName := validatedData.lastName.GetOr(instance.lastName);
    instance.email := validatedData.email.GetOr(instance.email);
    instance.birthdate := validatedData.birthdate.GetOr(instance.birthdate);
    instance.nationalId := validatedData.nationalId.GetOr(instance.nationalId);
    instance.phoneNumber := validatedData.phoneNumber.GetOr(instance.phoneNumber);
    instance.wallet := validatedData.wallet.GetOr(instance.wallet);
    table.Save(instance);
    r := instance;
  }

  /** `UserSerializer.delete`: removes the instance's row and nothing else. */
  method Delete(table: Table, instance: Account) returns (deleted: nat)
    requires table.Valid()
    modifies table
    ensures table.Valid()
    ensures table.rows == old(table.rows) - {instance.id}
    ensures table.nextId == old(table.nextId)
    ensures deleted == if instance.id in old(table.rows) then 1 else 0
  {
    deleted := table.Remove(instance);
  }
}

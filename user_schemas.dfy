/** The user schemas of schemas/users.py: the password rule, the username and
    name constraints, the registration and password-change payloads, and the
    read models that turn a `users` or `source_users` row into a response. */
module UserSchemas {
  import opened Wrappers
  import opened Tables
  import opened Models

  const PasswordMinLength: nat := 8
  const UsernameMinLength: nat := 3
  const TooShort: string := "Password must be at least 8 characters long"
  const NoLetter: string := "Password must contain at least one letter"
  /** The message as the schema spells it. */
  const NoDigit: string := "Pasword must contain at least one digit"

  predicate IsLetter(c: char) {
    'a' <= c <= 'z' || 'A' <= c <= 'Z'
  }

  predicate IsDigit(c: char) {
    '0' <= c <= '9'
  }

  /** `any(ch.isalpha() for ch in s)`, scanning from the front. */
  predicate AnyLetter(s: string) {
    s != [] && (IsLetter(s[0]) || AnyLetter(s[1..]))
  }

  /** `any(ch.isdigit() for ch in s)`, scanning from the front. */
  predicate AnyDigit(s: string) {
    s != [] && (IsDigit(s[0]) || AnyDigit(s[1..]))
  }

  lemma {:induction false} AnyLetterMeaning(s: string)
    ensures AnyLetter(s) <==> exists i :: 0 <= i < |s| && IsLetter(s[i])
  {
    if s != [] {
      AnyLetterMeaning(s[1..]);
      if exists i :: 0 <= i < |s| && IsLetter(s[i]) {
        var i :| 0 <= i < |s| && IsLetter(s[i]);
        if i > 0 {
          assert s[1..][i - 1] == s[i];
        }
      }
      if exists j :: 0 <= j < |s| - 1 && IsLetter(s[1..][j]) {
        var j :| 0 <= j < |s| - 1 && IsLetter(s[1..][j]);
        assert s[j + 1] == s[1..][j];
      }
    }
  }

  lemma {:induction false} AnyDigitMeaning(s: string)
    ensures AnyDigit(s) <==> exists i :: 0 <= i < |s| && IsDigit(s[i])
  {
    if s != [] {
      AnyDigitMeaning(s[1..]);
      if exists i :: 0 <= i < |s| && IsDigit(s[i]) {
        var i :| 0 <= i < |s| && IsDigit(s[i]);
        if i > 0 {
          assert s[1..][i - 1] == s[i];
        }
      }
      if exists j :: 0 <= j < |s| - 1 && IsDigit(s[1..][j]) {
        var j :| 0 <= j < |s| - 1 && IsDigit(s[1..][j]);
        assert s[j + 1] == s[1..][j];
      }
    }
  }

  /** `validate_password`: the length rule, then the letter rule, then the
      digit rule; the first that fails raises with its message, and a password
      that passes all three comes back as it was. */
  function ValidatePassword(password: string): Result<string, string> {
    if |password| < PasswordMinLength then Failure(TooShort)
    else if !AnyLetter(password) then Failure(NoLetter)
    else if !AnyDigit(password) then Failure(NoDigit)
    else Success(password)
  }

  /** A password is accepted exactly when it has eight characters, a letter
      and a digit somewhere, and then it is returned unchanged. */
  lemma PasswordAccepted(password: string)
    ensures ValidatePassword(password).Success? <==>
      && |password| >= PasswordMinLength
      && (exists i :: 0 <= i < |password| && IsLetter(password[i]))
      && (exists i :: 0 <= i < |password| && IsDigit(password[i]))
    ensures ValidatePassword(password).Success? ==> ValidatePassword(password).value == password
  {
    AnyLetterMeaning(password);
    AnyDigitMeaning(password);
  }

  /** The rules are checked in order: a short password is reported as short
      whatever else is wrong with it, and a password with no letter as such
      even when it has no digit either. */
  lemma PasswordFirstRuleDecides(password: string)
    ensures |password| < PasswordMinLength ==> ValidatePassword(password) == Failure(TooShort)
    ensures |password| >= PasswordMinLength && (forall i :: 0 <= i < |password| ==> !IsLetter(password[i])) ==>
      ValidatePassword(password) == Failure(NoLetter)
    ensures
      && |password| >= PasswordMinLength
      && (exists i :: 0 <= i < |password| && IsLetter(password[i]))
      && (forall i :: 0 <= i < |password| ==> !IsDigit(password[i]))
      ==> ValidatePassword(password) == Failure(NoDigit)
  {
    AnyLetterMeaning(password);
    AnyDigitMeaning(password);
  }

  /** `UsernameStr`: 3 to 20 characters. */
  predicate UsernameOk(s: string) {
    UsernameMinLength <= |s| <= UsernameMaxLength
  }

  /** `NameStr`: at most 32 characters, none of them a digit. */
  predicate NameOk(s: string) {
    |s| <= NameMaxLength && !AnyDigit(s)
  }

  /** The `gender` literal. */
  predicate GenderOk(g: string) {
    g == "male" || g == "female" || g == DefaultGender
  }

  lemma NameMeaning(s: string)
    ensures NameOk(s) <==> |s| <= NameMaxLength && forall i :: 0 <= i < |s| ==> !IsDigit(s[i])
  {
    AnyDigitMeaning(s);
  }

  /** A field of a payload that failed validation. */
  datatype FieldError = UsernameLength | Password(message: string)

  datatype UserCreate = UserCreate(username: string, email: string, password: string)

  /** `UserCreate(...)`: every field is checked and every failure reported,
      in field order. */
  function UserCreateErrors(u: UserCreate): seq<FieldError> {
    (if UsernameOk(u.username) then [] else [UsernameLength])
    + (match ValidatePassword(u.password)
       case Success(_) => []
       case Failure(m) => [Password(m)])
  }

  lemma UserCreateAccepted(u: UserCreate)
    ensures UserCreateErrors(u) == [] <==> UsernameOk(u.username) && ValidatePassword(u.password).Success?
    ensures UsernameOk(u.username) ==> forall e :: e in UserCreateErrors(u) ==> e.Password?
  {
  }

  datatype PasswordChange = PasswordChange(lastPassword: string, password: string)

  /** `PasswordChange(...)`: only the new password is checked. */
  function PasswordChangeErrors(p: PasswordChange): seq<FieldError> {
    match ValidatePassword(p.password)
    case Success(_) => []
    case Failure(m) => [Password(m)]
  }

  /** The old password takes no part in validating a password change. */
  lemma LastPasswordNeverChecked(p: PasswordChange, last: string)
    ensures PasswordChangeErrors(p.(lastPassword := last)) == PasswordChangeErrors(p)
    ensures PasswordChangeErrors(p) == [] <==> ValidatePassword(p.password).Success?
  {
  }

  /** `UserBase.model_validate(row)`: the username, both names and the
      gender must fit their field types. The e-mail format is not checked here. */
  predicate UserBaseAccepts(u: User) {
    && UsernameOk(u.username)
    && (u.firstName.Some? ==> NameOk(u.firstName.value))
    && (u.lastName.Some? ==> NameOk(u.lastName.value))
    && GenderOk(u.gender)
  }

  /** `UserFromDB.model_validate(row)`: as `UserBase`, and `source_id` must not be null. */
  predicate UserFromDbAccepts(u: User) {
    UserBaseAccepts(u) && u.sourceId.Some?
  }

  /** `SourceUserFromDB.model_validate(row)`: `description` must not be null. */
  predicate SourceUserAccepts(s: SourceUser) {
    s.description.Some?
  }

  /** A user whose source was deleted (its `source_id` set to null) still
      reads as a `UserBase` but no longer as a `UserFromDB`. */
  lemma DetachedUserUnreadable(u: User, source: Id)
    requires u.sourceId == Some(source)
    ensures !UserFromDbAccepts(Detach(u, source))
    ensures UserBaseAccepts(Detach(u, source)) == UserBaseAccepts(u)
  {
  }

  /** A freshly registered row reads as a `UserFromDB` exactly when its
      username fits `UsernameStr`: every other column holds its default. */
  lemma NewUserReadable(username: string, email: string, hashed: string)
    ensures UserFromDbAccepts(NewUserRow(username, email, hashed)) <==> UsernameOk(username)
  {
  }
}

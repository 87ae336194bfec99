/**
 * The sign-up form schema of src/zodSchemas/signUpSchema.ts: a username of 2 to 20
 * characters, a well-formed email address and a password of at least 6 characters.
 * Validation collects one issue per failing rule, in the order the fields are declared.
 * The email syntax check belongs to the schema library; it is a parameter here.
 */
module SignUpSchema {

  datatype Field = Username | Email | Password

  /** One failed rule: the field it is about and its message. */
  datatype Issue = Issue(path: Field, message: string)

  const UsernameMinLength: nat := 2
  const UsernameMaxLength: nat := 20
  const PasswordMinLength: nat := 6

  const UsernameTooShort := "Username must be at least 2 characters"
  const UsernameTooLong := "Username must be no more than 20 characters"
  const InvalidEmail := "Invalid email address"
  const PasswordTooShort := "Password must be at least 6 characters"

  /** The messages of the username rules that fail, minimum length first. */
  function UsernameIssues(username: string): (r: seq<string>)
    ensures UsernameTooShort in r <==> |username| < UsernameMinLength
    ensures UsernameTooLong in r <==> |username| > UsernameMaxLength
    ensures r == [] <==> UsernameMinLength <= |username| <= UsernameMaxLength
    ensures |r| <= 1
    ensures forall m :: m in r ==> m == UsernameTooShort || m == UsernameTooLong
  {
    assert UsernameTooShort[17] != UsernameTooLong[17];
    (if |username| < UsernameMinLength then [UsernameTooShort] else [])
    + (if |username| > UsernameMaxLength then [UsernameTooLong] else [])
  }

  /** The message of the email rule when the address is not well formed. */
  function EmailIssues(email: string, isEmail: string -> bool): (r: seq<string>)
    ensures r == [] <==> isEmail(email)
    ensures r != [] ==> r == [InvalidEmail]
  {
    if isEmail(email) then [] else [InvalidEmail]
  }

  /** The message of the password rule when the password is too short. */
  function PasswordIssues(password: string): (r: seq<string>)
    ensures r == [] <==> |password| >= PasswordMinLength
    ensures r != [] ==> r == [PasswordTooShort]
  {
    if |password| < PasswordMinLength then [PasswordTooShort] else []
  }

  /** The position of a field in the schema's declaration. */
  function FieldRank(f: Field): nat {
    match f
    case Username => 0
    case Email => 1
    case Password => 2
  }

  /**
   * The issues of a sign-up object: every failing rule contributes exactly its own
   * message, tagged with its field, and the object is valid exactly when none fails.
   */
  function Validate(username: string, email: string, password: string,
                    isEmail: string -> bool): (r: seq<Issue>)
    ensures r == [] <==>
      UsernameMinLength <= |username| <= UsernameMaxLength
      && isEmail(email) && |password| >= PasswordMinLength
    ensures Issue(Username, UsernameTooShort) in r <==> |username| < UsernameMinLength
    ensures Issue(Username, UsernameTooLong) in r <==> |username| > UsernameMaxLength
    ensures Issue(Email, InvalidEmail) in r <==> !isEmail(email)
    ensures Issue(Password, PasswordTooShort) in r <==> |password| < PasswordMinLength
    ensures |r| == (if |username| < UsernameMinLength || |username| > UsernameMaxLength then 1 else 0)
                   + (if isEmail(email) then 0 else 1)
                   + (if |password| < PasswordMinLength then 1 else 0)
    ensures forall i, j :: 0 <= i < j < |r| ==> FieldRank(r[i].path) <= FieldRank(r[j].path)
  {
    var um := UsernameIssues(username);
    var u := seq(|um|, i requires 0 <= i < |um| => Issue(Username, um[i]));
    var e := if isEmail(email) then [] else [Issue(Email, InvalidEmail)];
    var p := if |password| < PasswordMinLength then [Issue(Password, PasswordTooShort)] else [];
    assert forall i :: 0 <= i < |u| ==> u[i] == Issue(Username, um[i]);
    assert e == [] <==> EmailIssues(email, isEmail) == [];
    assert p == [] <==> PasswordIssues(password) == [];
    u + e + p
  }
}

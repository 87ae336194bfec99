/**
 * The sign-up handler of src/app/api/sign-up/route.ts over an abstract account store.
 *
 * A request carries a username, an email and the password's hash. The handler
 *  1. rejects the request if a verified account holds the username;
 *  2. otherwise looks up the first account with the email and draws a code;
 *  3. rejects the request if that account is verified, overwrites it in place if it
 *     is not, and creates a new unverified account if there is none;
 *  4. sends the code to the requested email and reports the notifier's outcome,
 *     keeping the write even when the notifier fails.
 * The random draw, the clock (milliseconds) and the notifier's reply are inputs.
 */
module SignUpRoute {
  import opened Wrappers
  import VerificationCode
  import SignUpSchema

  /** A received anonymous message; the account only carries these along. */
  datatype Message = Message(content: string, createdAt: int)

  /** One account document of the store. */
  datatype Account = Account(
    username: string,
    email: string,
    passwordHash: string,
    verificationCode: string,
    verificationCodeExpiry: int,
    isVerified: bool,
    isAcceptingMessages: bool,
    messages: seq<Message>)

  /** The HTTP answer: status code and the `{success, message}` body. */
  datatype Response = Response(status: int, success: bool, message: string)

  /** The call made to the verification notifier. */
  datatype Notification = Notification(email: string, username: string, code: string)

  /** What the notifier answers. */
  datatype NotifierReply = NotifierReply(success: bool, message: string)

  /** Everything a request produces: the answer, the new store, the notification sent. */
  datatype Outcome = Outcome(response: Response, accounts: seq<Account>, sent: Option<Notification>)

  const OneHourMs: int := 3600000

  const UsernameTaken := Response(400, false, "Username is already taken")
  const EmailTaken := Response(400, false, "User already exists with this email")
  const Registered := Response(201, true, "User registered successfully. Please verify your account.")

  /** The index of the first account (in store order) that satisfies `matches`. */
  function FindFirst(accounts: seq<Account>, matches: Account -> bool): (r: Option<nat>)
    ensures r.None? <==> forall i :: 0 <= i < |accounts| ==> !matches(accounts[i])
    ensures r.Some? ==> r.value < |accounts| && matches(accounts[r.value])
    ensures r.Some? ==> forall i :: 0 <= i < r.value ==> !matches(accounts[i])
  {
    if accounts == [] then None
    else if matches(accounts[0]) then Some(0)
    else match FindFirst(accounts[1..], matches)
      case None => None
      case Some(i) => Some(i + 1)
  }

  predicate IsVerifiedWithUsername(a: Account, username: string) {
    a.isVerified && a.username == username
  }

  /** The lookup `{ username, isVerified: true }` of the handler's first step. */
  function FindVerifiedByUsername(accounts: seq<Account>, username: string): Option<nat> {
    FindFirst(accounts, (a: Account) => IsVerifiedWithUsername(a, username))
  }

  /** The lookup `{ email }` of the handler's second step. */
  function FindByEmail(accounts: seq<Account>, email: string): Option<nat> {
    FindFirst(accounts, (a: Account) => a.email == email)
  }

  /** The account the create branch inserts. */
  function NewAccount(username: string, email: string, passwordHash: string,
                      code: string, expiry: int): Account
  {
    Account(username, email, passwordHash, code, expiry, false, true, [])
  }

  /** The overwrite branch's update of a stale unverified account. */
  function Refreshed(a: Account, username: string, passwordHash: string,
                     code: string, expiry: int): Account
  {
    a.(username := username, passwordHash := passwordHash,
       verificationCode := code, verificationCodeExpiry := expiry)
  }

  /** The answer once the notifier has been called, given its reply. */
  function Answer(reply: NotifierReply): Response {
    if reply.success then Registered else Response(500, false, reply.message)
  }

  /** What one sign-up request does to the store, as a function of its inputs. */
  function RegisterOutcome(accounts: seq<Account>, username: string, email: string,
                           passwordHash: string, draw: nat, now: int,
                           reply: NotifierReply): Outcome
    requires draw < VerificationCode.CodeSpan
  {
    if FindVerifiedByUsername(accounts, username).Some? then
      Outcome(UsernameTaken, accounts, None)
    else
      var code := VerificationCode.Code(draw);
      var sent := Some(Notification(email, username, code));
      match FindByEmail(accounts, email)
      case Some(i) =>
        if accounts[i].isVerified then Outcome(EmailTaken, accounts, None)
        else
          var updated := Refreshed(accounts[i], username, passwordHash, code, now + OneHourMs);
          Outcome(Answer(reply), accounts[i := updated], sent)
      case None =>
        var created := NewAccount(username, email, passwordHash, code, now + OneHourMs);
        Outcome(Answer(reply), accounts + [created], sent)
  }

  /** The store's records are unique by email. */
  predicate UniqueEmails(accounts: seq<Account>) {
    forall i, j :: 0 <= i < j < |accounts| ==> accounts[i].email != accounts[j].email
  }

  /** The verified records of the store are unique by username. */
  predicate UniqueVerifiedUsernames(accounts: seq<Account>) {
    forall i, j :: 0 <= i < j < |accounts| && accounts[i].isVerified && accounts[j].isVerified
      ==> accounts[i].username != accounts[j].username
  }

  function VerifiedAccounts(accounts: seq<Account>): set<Account> {
    set a | a in accounts && a.isVerified
  }

  /**
   * A verified account with the requested username makes the request fail with
   * "Username is already taken", whatever the email: the store is unchanged and no
   * notification is sent.
   */
  lemma UsernameTakenRejects(accounts: seq<Account>, username: string, email: string,
                             passwordHash: string, draw: nat, now: int,
                             reply: NotifierReply, holder: nat)
    requires draw < VerificationCode.CodeSpan
    requires holder < |accounts| && accounts[holder].isVerified
    requires accounts[holder].username == username
    ensures RegisterOutcome(accounts, username, email, passwordHash, draw, now, reply)
         == Outcome(UsernameTaken, accounts, None)
  {
    assert IsVerifiedWithUsername(accounts[holder], username);
  }

  /**
   * When no verified account holds the username and the account found by email is
   * verified, the request fails with "User already exists with this email": the store
   * is unchanged and no notification is sent.
   */
  lemma EmailTakenRejects(accounts: seq<Account>, username: string, email: string,
                          passwordHash: string, draw: nat, now: int,
                          reply: NotifierReply, found: nat)
    requires draw < VerificationCode.CodeSpan
    requires forall j :: 0 <= j < |accounts| ==> !IsVerifiedWithUsername(accounts[j], username)
    requires found < |accounts| && accounts[found].email == email && accounts[found].isVerified
    requires forall j :: 0 <= j < found ==> accounts[j].email != email
    ensures RegisterOutcome(accounts, username, email, passwordHash, draw, now, reply)
         == Outcome(EmailTaken, accounts, None)
  {
  }

  /**
   * When the account found by email is unverified, it alone is rewritten: it gets the
   * new username, password hash, code and an expiry one hour after `now`, keeps its
   * email, flags and messages, and the notifier gets the stored code.
   */
  lemma OverwriteUnverified(accounts: seq<Account>, username: string, email: string,
                            passwordHash: string, draw: nat, now: int,
                            reply: NotifierReply, found: nat)
    requires draw < VerificationCode.CodeSpan
    requires forall j :: 0 <= j < |accounts| ==> !IsVerifiedWithUsername(accounts[j], username)
    requires found < |accounts| && accounts[found].email == email && !accounts[found].isVerified
    requires forall j :: 0 <= j < found ==> accounts[j].email != email
    ensures var o := RegisterOutcome(accounts, username, email, passwordHash, draw, now, reply);
      var a, b := accounts[found], o.accounts[found];
      && |o.accounts| == |accounts|
      && (forall j :: 0 <= j < |accounts| && j != found ==> o.accounts[j] == accounts[j])
      && b.username == username && b.passwordHash == passwordHash
      && b.verificationCode == VerificationCode.Code(draw)
      && b.verificationCodeExpiry == now + OneHourMs
      && b.email == a.email && b.isVerified == a.isVerified
      && b.isAcceptingMessages == a.isAcceptingMessages && b.messages == a.messages
      && o.sent == Some(Notification(email, username, b.verificationCode))
      && o.response == Answer(reply)
  {
  }

  /**
   * When no account has the email, exactly one unverified account is appended, with
   * messages accepted and none received, and the notifier gets its code.
   */
  lemma CreateWhenEmailUnknown(accounts: seq<Account>, username: string, email: string,
                               passwordHash: string, draw: nat, now: int,
                               reply: NotifierReply)
    requires draw < VerificationCode.CodeSpan
    requires forall j :: 0 <= j < |accounts| ==> !IsVerifiedWithUsername(accounts[j], username)
    requires forall j :: 0 <= j < |accounts| ==> accounts[j].email != email
    ensures var o := RegisterOutcome(accounts, username, email, passwordHash, draw, now, reply);
      var code := VerificationCode.Code(draw);
      && o.accounts == accounts
         + [Account(username, email, passwordHash, code, now + OneHourMs, false, true, [])]
      && o.sent == Some(Notification(email, username, code))
      && o.response == Answer(reply)
  {
  }

  /**
   * The notifier is called exactly on the write paths, with the requested email and
   * username and the code written to the store. Its reply decides only the answer:
   * 201 on success, 500 with its message on failure; the write is never rolled back.
   * Without a call the answer is a 400 and the store is untouched.
   */
  lemma NotificationOutcome(accounts: seq<Account>, username: string, email: string,
                            passwordHash: string, draw: nat, now: int,
                            reply: NotifierReply, other: NotifierReply)
    requires draw < VerificationCode.CodeSpan
    ensures var o := RegisterOutcome(accounts, username, email, passwordHash, draw, now, reply);
      && (o.sent.None? ==> o.accounts == accounts && o.response.status == 400
                           && !o.response.success)
      && (o.sent.Some? ==>
            && o.sent.value == Notification(email, username, VerificationCode.Code(draw))
            && (exists j :: 0 <= j < |o.accounts| && o.accounts[j].email == email
                  && o.accounts[j].username == username
                  && o.accounts[j].verificationCode == o.sent.value.code)
            && o.response.success == reply.success
            && o.response == (if reply.success then Registered
                              else Response(500, false, reply.message)))
      && o.accounts
         == RegisterOutcome(accounts, username, email, passwordHash, draw, now, other).accounts
  {
    var o := RegisterOutcome(accounts, username, email, passwordHash, draw, now, reply);
    if o.sent.Some? {
      match FindByEmail(accounts, email)
      case Some(i) => assert o.accounts[i].email == email;
      case None => assert o.accounts[|accounts|].email == email;
    }
  }

  /**
   * The handler never removes an account and never changes a verification flag:
   * existing accounts keep their place, email and flag, verified ones are untouched,
   * and at most one unverified account with the requested email is added.
   */
  lemma StoreOnlyGrows(accounts: seq<Account>, username: string, email: string,
                       passwordHash: string, draw: nat, now: int, reply: NotifierReply)
    requires draw < VerificationCode.CodeSpan
    ensures var o := RegisterOutcome(accounts, username, email, passwordHash, draw, now, reply);
      && |accounts| <= |o.accounts| <= |accounts| + 1
      && (forall j :: 0 <= j < |accounts| ==>
            && o.accounts[j].email == accounts[j].email
            && o.accounts[j].isVerified == accounts[j].isVerified
            && (accounts[j].isVerified ==> o.accounts[j] == accounts[j]))
      && (forall j :: |accounts| <= j < |o.accounts| ==>
            !o.accounts[j].isVerified && o.accounts[j].email == email)
  {
  }

  /** The set of verified accounts is the same before and after a request. */
  lemma {:induction false} VerifiedAccountsUnchanged(accounts: seq<Account>, username: string,
                                                     email: string, passwordHash: string,
                                                     draw: nat, now: int, reply: NotifierReply)
    requires draw < VerificationCode.CodeSpan
    ensures VerifiedAccounts(RegisterOutcome(accounts, username, email, passwordHash,
                                             draw, now, reply).accounts)
         == VerifiedAccounts(accounts)
  {
    var o := RegisterOutcome(accounts, username, email, passwordHash, draw, now, reply);
    StoreOnlyGrows(accounts, username, email, passwordHash, draw, now, reply);
    forall a | a in VerifiedAccounts(o.accounts)
      ensures a in VerifiedAccounts(accounts)
    {
      var j :| 0 <= j < |o.accounts| && o.accounts[j] == a;
      assert j < |accounts|;
    }
    forall a | a in VerifiedAccounts(accounts)
      ensures a in VerifiedAccounts(o.accounts)
    {
      var j :| 0 <= j < |accounts| && accounts[j] == a;
      assert o.accounts[j] == a;
    }
  }

  /**
   * "At most one account per email" and "at most one verified account per username"
   * survive every request: creation happens only when no account has the email, and
   * verified accounts are never changed or added.
   */
  lemma {:induction false} UniquenessPreserved(accounts: seq<Account>, username: string,
                                               email: string, passwordHash: string,
                                               draw: nat, now: int, reply: NotifierReply)
    requires draw < VerificationCode.CodeSpan
    ensures var o := RegisterOutcome(accounts, username, email, passwordHash, draw, now, reply);
      && (UniqueEmails(accounts) ==> UniqueEmails(o.accounts))
      && (UniqueVerifiedUsernames(accounts) ==> UniqueVerifiedUsernames(o.accounts))
  {
    var o := RegisterOutcome(accounts, username, email, passwordHash, draw, now, reply);
    StoreOnlyGrows(accounts, username, email, passwordHash, draw, now, reply);
    if |o.accounts| > |accounts| {
      assert FindByEmail(accounts, email).None?;
    }
  }

  /**
   * The handler never applies the sign-up schema: any request the schema rejects,
   * with a new email and a username no verified account holds, is still registered
   * with a 201 when the notifier succeeds.
   */
  lemma SchemaNotEnforced(accounts: seq<Account>, username: string, email: string,
                          password: string, isEmail: string -> bool,
                          passwordHash: string, draw: nat, now: int, message: string)
    requires draw < VerificationCode.CodeSpan
    requires SignUpSchema.Validate(username, email, password, isEmail) != []
    requires forall j :: 0 <= j < |accounts| ==> !IsVerifiedWithUsername(accounts[j], username)
    requires forall j :: 0 <= j < |accounts| ==> accounts[j].email != email
    ensures var o := RegisterOutcome(accounts, username, email, passwordHash, draw, now,
                                     NotifierReply(true, message));
      o.response == Registered && |o.accounts| == |accounts| + 1
  {
  }

  /** The store the handler reads and writes. */
  class AccountStore {
    var accounts: seq<Account>

    constructor (initial: seq<Account>)
      ensures accounts == initial
    {
      accounts := initial;
    }

    /**
     * One sign-up request. `passwordHash` is the hash of the requested password,
     * `draw` the random draw, `now` the clock in milliseconds and `reply` what the
     * notifier answers if it is called; `sent` is the call made to it, if any.
     */
    method Register(username: string, email: string, passwordHash: string,
                    draw: nat, now: int, reply: NotifierReply)
      returns (response: Response, sent: Option<Notification>)
      requires draw < VerificationCode.CodeSpan
      modifies this
      ensures Outcome(response, accounts, sent)
           == RegisterOutcome(old(accounts), username, email, passwordHash, draw, now, reply)
    {
      if FindVerifiedByUsername(accounts, username).Some? {
        return UsernameTaken, None;
      }
      var existing := FindByEmail(accounts, email);
      var code := VerificationCode.Code(draw);
      if existing.Some? {
        var i := existing.value;
        if accounts[i].isVerified {
          return EmailTaken, None;
        }
        var account := accounts[i];
        account := account.(username := username);
        account := account.(passwordHash := passwordHash);
        account := account.(verificationCode := code);
        account := account.(verificationCodeExpiry := now + OneHourMs);
        accounts := accounts[i := account];
      } else {
        var expiry := now + OneHourMs;
        accounts := accounts + [Account(username, email, passwordHash, code, expiry,
                                        false, true, [])];
      }
      sent := Some(Notification(email, username, code));
      if !reply.success {
        return Response(500, false, reply.message), sent;
      }
      response := Registered;
    }
  }
}

# Anonymous Feedback sign-up, modelled in Dafny

This project models the sign-up path of the Anonymous Feedback web application:
the `POST /api/sign-up` handler and the sign-up form schema.

The handler decides what happens to an account store when someone signs up with a
username, an email and a password. The steps run in this order:

1. If a verified account already holds the username, the answer is 400 "Username is already taken".
2. Otherwise the handler looks up the account with the email and draws a six-digit code.
3. If that account is verified, the answer is 400 "User already exists with this email".
4. If that account is unverified, it is overwritten in place: new username, password hash, code, and an expiry one hour later.
5. If there is no such account, a new unverified account is created that accepts messages and has none.
6. The code is sent to the email. If the notifier fails, the answer is 500 with the notifier's message, but the write stays.
7. On success the answer is 201.

The schema checks the form: a username of 2 to 20 characters, a well-formed email and a password of at least 6 characters. It reports one message for each rule that fails.

Files:

- `wrappers.dfy`: `Option`, the value a store lookup returns.
- `sign_up_schema.dfy` (module `SignUpSchema`): the schema as pure functions. The email syntax check is a parameter `isEmail`.
- `verification_code.dfy` (module `VerificationCode`): the code `100000 + draw`, rendered in decimal.
- `sign_up_route.dfy` (module `SignUpRoute`):
  - the account record;
  - the pure specification `RegisterOutcome` of one request;
  - lemmas about `RegisterOutcome`;
  - the class `AccountStore`, whose `Register` method updates the store in place and is proved equal to `RegisterOutcome`.

Inputs the handler gets from its environment are parameters of `Register`:

- the bcrypt hash of the password (`passwordHash`);
- the random draw (`draw`, an integer in [0, 900000));
- the clock (`now`, in milliseconds);
- the notifier's reply (`reply`).

The call made to the notifier is returned as `sent`.

Two details of the handler shape the model:

- The handler never applies the schema; it destructures the raw JSON body (src/app/api/sign-up/route.ts:11). `SignUpRoute.SchemaNotEnforced` shows that any request the schema rejects is still registered.
- The create branch computes the expiry with local-time `setHours(getHours() + 1)` (src/app/api/sign-up/route.ts:61-62). Both branches are modelled as `now + 3600000`.

## Model

| member | source | states |
|---|---|---|
| `SignUpSchema.UsernameIssues` | src/zodSchemas/signUpSchema.ts:3-5 | "Username must be at least 2 characters" is reported iff the length is below 2, and "Username must be no more than 20 characters" iff it is above 20. At most one is reported, and none iff the length is in 2..20 |
| `SignUpSchema.EmailIssues` | src/zodSchemas/signUpSchema.ts:7 | no issue iff the address passes the email check; otherwise exactly "Invalid email address" |
| `SignUpSchema.PasswordIssues` | src/zodSchemas/signUpSchema.ts:13 | no issue iff the password has at least 6 characters; otherwise exactly "Password must be at least 6 characters" |
| `SignUpSchema.Validate` | src/zodSchemas/signUpSchema.ts:9-14 | the object is valid iff the username, email and password rules all pass. Each rule's message appears, tagged with its field, iff that rule fails. The number of issues is the number of failing fields, and issues come in field order: username, then email, then password |
| `VerificationCode.DecimalString` | src/app/api/sign-up/route.ts:30 | the rendering of a number is a non-empty string of decimal digits with no leading zero |
| `VerificationCode.ParseDecimalString` | src/app/api/sign-up/route.ts:30 | reading the decimal rendering back gives the number |
| `VerificationCode.DecimalLength` | src/app/api/sign-up/route.ts:30 | a number in [10^k, 10^(k+1)) renders as exactly k+1 digits |
| `VerificationCode.Code` | src/app/api/sign-up/route.ts:30 | for a draw in [0, 900000), the code is exactly 6 decimal digits. Its value is 100000 + draw, so it lies in [100000, 999999] |
| `SignUpRoute.FindFirst` | src/app/api/sign-up/route.ts:13-29 | a store lookup returns the first record in store order that matches, or nothing iff no record matches |
| `SignUpRoute.UsernameTakenRejects` | src/app/api/sign-up/route.ts:13-27 | if any verified record has the username, the answer is 400 "Username is already taken", whatever the email. The store is unchanged and nothing is sent |
| `SignUpRoute.EmailTakenRejects` | src/app/api/sign-up/route.ts:29-44 | if no verified record has the username and the record found by email is verified, the answer is 400 "User already exists with this email". The store is unchanged and nothing is sent |
| `SignUpRoute.OverwriteUnverified` | src/app/api/sign-up/route.ts:45-55 | if the record found by email is unverified, the record count is unchanged and every other record is the same. That record gets the new username, hash, code and expiry `now + 3600000`, and keeps its email, verification flag, message flag and messages. The notifier gets the stored code |
| `SignUpRoute.CreateWhenEmailUnknown` | src/app/api/sign-up/route.ts:57-76 | if no record has the email, exactly one record is appended: the username, email, hash, code, expiry one hour after `now`, unverified, accepting messages, no messages |
| `SignUpRoute.NotificationOutcome` | src/app/api/sign-up/route.ts:78-102 | the notifier is called once on every write path, with the requested email and username and the code now stored in a record with that email and username. Success gives 201 with the registration message. Failure gives 500 with the notifier's message. The store is the same whatever the reply (no rollback). When nothing is sent, the answer is a 400 and the store is unchanged |
| `SignUpRoute.StoreOnlyGrows` | src/app/api/sign-up/route.ts:29-76 | no record is removed. Every existing record keeps its position, email and verification flag, and verified records are untouched. At most one record is added, and it is unverified and has the requested email |
| `SignUpRoute.VerifiedAccountsUnchanged` | src/app/api/sign-up/route.ts:29-76 | the set of verified records is the same before and after every request |
| `SignUpRoute.UniquenessPreserved` | src/app/api/sign-up/route.ts:29-76 | "at most one record per email" and "at most one verified record per username" are preserved by every request |
| `SignUpRoute.SchemaNotEnforced` | src/app/api/sign-up/route.ts:11 | the handler does not validate: every request the schema rejects, with a new email and a username no verified account holds, gets 201 on a successful notification and adds a record |
| `SignUpRoute.AccountStore.Register` | src/app/api/sign-up/route.ts:13-102 | the in-place handler returns the answer and notification of `RegisterOutcome` and leaves the store equal to its new store |

## Left out

- Database plumbing is not modelled. This covers `dbConnect`, which is not awaited, and the real MongoDB/Mongoose behaviour. The store is a sequence of account values. `findOne` is "first match in store order", and `save` writes the changed record back or appends a new one.
- Unique indexes that the user model may declare are not modelled, so a save that fails on such an index is left out. The user model file is not part of this model.
- The catch-all 500 "Error registering user" is not modelled (src/app/api/sign-up/route.ts:104-111). It covers request-parsing errors, store exceptions and hashing exceptions, which all come from code outside this model.
- JSON parsing of the request body is not modelled. Fields are taken to be strings. Missing or non-string fields, and the schema's "Required" and type messages, are left out.
- bcrypt is not modelled. The hash of the password is an input to `Register`.
- Email transport is not modelled. Only the notifier's success flag and message are inputs.
- `Math.random` floating-point arithmetic is not modelled. The draw is its integer part, in [0, 900000). `SignUpRoute.AccountStore.Register` requires that range because `Math.random` guarantees it, not because callers must ensure it.
- One clock value `now` (milliseconds) serves both branches. The create branch's separate `new Date()` read and local-time/DST effects of `setHours` are left out.
- Races between concurrent requests in the check-then-act sequence are not modelled, because this is concurrency.
- The schema library's email syntax is not modelled. It is the parameter `isEmail`.
- String lengths are counted in Dafny characters. JavaScript counts UTF-16 code units, so this differs only for characters outside the Basic Multilingual Plane.
- Code verification, the message-acceptance toggle and the username-availability query are not modelled. They are implemented outside the two files modelled here.
- Console logging is not modelled.
- Message fields beyond content and creation time are not modelled. The message model is not part of this model, and the handler only carries messages along.

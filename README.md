# Mock account and session service

This project models the browser-side mock backend of a small identity-management demo, together
with the password-strength rule of its registration form.

The mock backend has three parts:

- **The account table.** `USERS_DB` is an append-only list of account records. Each record has an
  id, name, email, cleartext password, government id and creation timestamp.
- **Three operations on the table.**
  - `register` refuses an email already present. Otherwise it appends a record whose id is the
    previous length plus one, and writes the table back to persistent storage.
  - `login` finds the first record matching both email and password and mints the bearer token
    `mock-jwt-token-<id>`.
  - `getProfile` reads the id back with `parseInt(token.replace('mock-jwt-token-', ''))`. It
    returns the matching record without its password.
- **The password-strength rule.** The registration form checks four requirements:
  - a length of at least 8 UTF-16 code units;
  - a digit;
  - an ASCII upper-case letter;
  - one of `!@#$%^&*(),.?":{}|<>`.

  `isPasswordStrong` is the conjunction of the four. `handleSubmit` refuses to call `register`
  when the password is not strong, and the submit button is disabled in that case.

Layout, one module per file:

- The JavaScript built-ins the core relies on are modelled exactly, up to the number-precision,
  exponent-notation, `-0` and lone-surrogate points under "## Left out":
  - `wrappers.dfy`: `Option` and `Result`.
  - `js_string.dfy`: `String.prototype.replace` with a string pattern, which removes the first
    occurrence only. Also `String.prototype.length` in UTF-16 code units.
  - `js_number.dfy`: the global `parseInt` without a radix, following section 19.2.5 of ECMA-262.
    This covers whitespace and line terminators, an optional sign, the `0x`/`0X` prefix, the
    longest digit run, and NaN as `None`. Also the decimal rendering of an integral Number that a
    template literal produces.
- `types.dfy`: `UserProfile` and `AuthResponse` as datatypes.
- `token.dfy`: the token's mint and parse pair.
- `session_service.dfy`: `register`, `login` and `getProfile` as functions of the table's contents,
  with the table invariants. There are two invariants: emails are unique, and the record at
  index `i` has id `i + 1`.
- `mock_api.dfy`: the class `UserStore`. It holds `USERS_DB` as a `seq` field that `Register`
  reassigns, with a ghost `persisted` copy standing for the write-back. `Login` and `GetProfile`
  have no `modifies` clause, so they cannot change the table.
- `auth.dfy`: the password requirements, the disabled state of the submit button, and
  `handleSubmit` as a method that modifies the store.

### Token decoding corners

A token need not carry the prefix. `replace` removes the first occurrence of the prefix wherever it
is, and leaves a string without it unchanged, so:

- `7` (no prefix) resolves to account 7;
- `5mock-jwt-token-` resolves to account 5;
- `xmock-jwt-token-5` resolves to nothing.

See `Token.PrefixNotRequired`, `Token.DigitBeforePrefix` and `Token.LetterBeforePrefix`.

Ids are distinct as long as the table loaded at start-up satisfies `id == position + 1`. The model
takes that as the constructor's precondition (`SessionService.WellFormed`) and proves that
`register` preserves it.

## Model

| member | source | states |
|---|---|---|
| JsString.IndexOfFrom | services/mockBackend.ts:39 | the result is where the pattern first occurs at or after `from`; `None` only when it occurs nowhere from there on |
| JsString.RemoveFirst | services/mockBackend.ts:39 | with no occurrence the string is returned unchanged; otherwise exactly the first occurrence is cut out and everything around it kept |
| JsString.RemoveFirstOfPrefixed | services/mockBackend.ts:39 | removing a pattern from a string that starts with it leaves exactly the rest |
| JsString.RemoveFirstAfterChar | services/mockBackend.ts:39 | an occurrence after a leading character that cannot start the pattern is the one removed, and the character survives |
| JsString.Utf16Length | components/Auth.tsx:140 | the UTF-16 length lies between the character count and twice it, and equals the character count exactly when every character is in the Basic Multilingual Plane |
| JsString.Utf16LengthAppend | components/Auth.tsx:140 | the UTF-16 length of a concatenation is the sum of the lengths |
| JsNumber.TrimStart | services/mockBackend.ts:39 | the result is a suffix of the input, every character dropped in front of it is whitespace or a line terminator, and it does not start with one |
| JsNumber.ParseInt | services/mockBackend.ts:39 | the definition of `parseInt` without a radix: whitespace trimmed, then an optional sign, then a `0x`/`0X` prefix, then the longest digit run, NaN when there is none; its properties are the `JsNumber.ParseInt…` lemmas |
| JsNumber.DigitValue | services/mockBackend.ts:39 | a character's digit value is below 10 exactly for `0`..`9`, and at most 36 |
| JsNumber.DigitRun | services/mockBackend.ts:39 | the run is the longest prefix of digits in the radix: every character in it is a digit and the next one is not |
| JsNumber.Decimal | services/mockBackend.ts:34 | an integer renders as at least one decimal digit, with no leading zero unless it is 0 |
| JsNumber.NumberToString | services/mockBackend.ts:34 | the definition of the template-literal rendering of an integer: a `-` for a negative number, then the decimal digits of its magnitude; `JsNumber.ParseIntNumberToString` is its partner |
| JsNumber.ValueOfDecimal | services/mockBackend.ts:34-39 | reading the decimal digits of `n` back in radix 10 gives `n` |
| JsNumber.ParseIntSkipsWhitespace | services/mockBackend.ts:39 | whitespace and line terminators in front never change what `parseInt` reads |
| JsNumber.ParseIntNumberToString | services/mockBackend.ts:34-39 | `parseInt` reads back every integer rendered in decimal, negatives included, even with trailing text that does not start with a digit (nor with `x`/`X` after a bare `0`) |
| JsNumber.ParseIntLetter | services/mockBackend.ts:39 | a string starting with a lower-case letter is NaN |
| JsNumber.ParseIntDigit | services/mockBackend.ts:39 | a single decimal digit reads as its value |
| JsNumber.ParseIntHexDigit | services/mockBackend.ts:39 | `0x` and one hexadecimal digit read as that digit's value in radix 16 |
| JsNumber.ParseIntNoDigitIsNaN | services/mockBackend.ts:39 | with no digit after the optional whitespace and sign, `parseInt` gives NaN |
| Token.Mint | services/mockBackend.ts:34 | every minted token starts with `mock-jwt-token-` and has something after it |
| Token.Parse | services/mockBackend.ts:39 | the definition of the decode: the first occurrence of the prefix removed, then `parseInt`; `Token.ParseMint` is its partner |
| Token.ParseAfterPrefix | services/mockBackend.ts:39 | after the prefix at the start of a token, `getProfile` reads the remainder with `parseInt` |
| Token.ParseMint | services/mockBackend.ts:34-40 | decoding a minted token gives back the id it was minted for, for every integer id |
| Token.MintInjective | services/mockBackend.ts:34 | distinct ids never share a token |
| Token.TrailingTextIgnored | services/mockBackend.ts:39 | text after the id that does not start with a digit is ignored |
| Token.LeadingWhitespaceAccepted | services/mockBackend.ts:39 | whitespace between the prefix and the id is skipped |
| Token.HexadecimalAccepted | services/mockBackend.ts:39 | `mock-jwt-token-0x` with a hexadecimal digit names that digit's value |
| Token.TextBeforePrefixKept | services/mockBackend.ts:39 | the prefix is removed where it first occurs; a character in front of it stays and is read by `parseInt` |
| Token.DigitBeforePrefix | services/mockBackend.ts:39 | a digit followed by the prefix names the id of that digit |
| Token.LetterBeforePrefix | services/mockBackend.ts:39 | a letter other than `m` in front of the prefix makes the token unreadable |
| Token.PrefixNotRequired | services/mockBackend.ts:39 | a bare digit without any prefix is still read as an id |
| SessionService.ProfileOf | services/mockBackend.ts:43-49 | the profile built from a record: its id, name, email, government id and creation time, with no password; `SessionService.GetProfileIgnoresPasswords` shows the password never matters |
| SessionService.WellFormed | services/mockBackend.ts:6-24 | the table invariants: no two records share an email, and the record at index `i` has id `i + 1`; `SessionService.RegisterPreservesWellFormed` shows `register` keeps them |
| SessionService.Find | services/mockBackend.ts:30 | `find` gives the first element satisfying the predicate, and nothing only when no element does |
| SessionService.Register | services/mockBackend.ts:13-24 | fails with `User already exists` exactly when the email is present; otherwise the new table is the old one with one record appended, whose id is the old length plus one and whose fields are the arguments |
| SessionService.Login | services/mockBackend.ts:28-35 | succeeds exactly when some record matches both email and password, and then returns the token minted for the first such record; every failure is the same `Invalid credentials` |
| SessionService.GetProfile | services/mockBackend.ts:37-50 | succeeds exactly when the token decodes to a number that some record's id equals, and then returns the first such record's profile; NaN matches nothing; every failure is `Invalid token!` |
| SessionService.RegisterPreservesWellFormed | services/mockBackend.ts:6-24 | a successful `register` keeps emails unique and keeps the id at index `i` equal to `i + 1` |
| SessionService.RegisterSameEmailTwice | services/mockBackend.ts:13-15 | registering an email a second time fails, whatever the other fields are |
| SessionService.LoginAfterRegister | services/mockBackend.ts:17-34 | logging in as a just-registered account in a well-formed table returns the token of the new id |
| SessionService.RegisterKeepsLogins | services/mockBackend.ts:24-34 | a registration never changes the result of a login that already succeeded |
| SessionService.GetProfileOfMintedToken | services/mockBackend.ts:34-49 | in a well-formed table the token minted for a record gives back exactly that record's profile |
| SessionService.GetProfileInWellFormed | services/mockBackend.ts:39-49 | in a well-formed table a token is accepted exactly when it decodes to an id from 1 to the table's length, and then gives the record at that position |
| SessionService.ProfileAfterLogin | services/mockBackend.ts:30-49 | the profile fetched with the token `login` returned is that of the account it matched, so its email is the one logged in with |
| SessionService.GetProfileIgnoresPasswords | services/mockBackend.ts:43-49 | tables differing only in passwords give identical `getProfile` results: the profile neither depends on nor carries the password |
| MockApi.UserStore.Valid | services/mockBackend.ts:6-25 | the class invariant: the table is well-formed and the persisted copy equals it |
| MockApi.UserStore.constructor | services/mockBackend.ts:6 | the table loaded at start-up must satisfy both invariants, and it is the initial content |
| MockApi.UserStore.Register | services/mockBackend.ts:11-26 | a duplicate email gives `User already exists` and leaves the table alone; otherwise exactly one record is pushed, the invariants still hold and the persisted copy equals the table |
| MockApi.UserStore.Login | services/mockBackend.ts:28-35 | the result is the session service's `login` on the current table; the table is not modified |
| MockApi.UserStore.GetProfile | services/mockBackend.ts:37-50 | the result is the session service's `getProfile` on the current table; the table is not modified |
| MockApi.FirstSession | services/mockBackend.ts:11-50 | on an empty table: register; a wrong-password login fails with `Invalid credentials`; the profile read with the minted token is id 1 with the registered fields; registering the same email again fails with `User already exists` |
| Auth.HasMinLength | components/Auth.tsx:140 | at least 8 UTF-16 code units |
| Auth.HasDigit | components/Auth.tsx:141 | some character is in `0`..`9` |
| Auth.HasUppercase | components/Auth.tsx:142 | some character is an ASCII upper-case letter |
| Auth.HasSpecial | components/Auth.tsx:143 | some character is one of `!@#$%^&*(),.?":{}\|<>` |
| Auth.PasswordRequirements | components/Auth.tsx:137-145 | the four checklist lines in order, each with the exact label text and its requirement as the `met` flag |
| Auth.AllMet | components/Auth.tsx:147 | `every` holds exactly when each requirement's `met` flag does |
| Auth.IsPasswordStrong | components/Auth.tsx:137-147 | a password is strong exactly when it has at least 8 UTF-16 code units, a digit, an ASCII upper-case letter and a character from the special-character class |
| Auth.RequirementsMonotone | components/Auth.tsx:140-143 | appending characters never turns a met requirement into an unmet one |
| Auth.StrengthMonotone | components/Auth.tsx:140-147 | appending characters to a strong password leaves it strong |
| Auth.NoLowercaseNeeded | components/Auth.tsx:142-143 | an example: the password `ABCDEFG1(` is strong, although it has no lower-case letter and its special character `(` is not in the label's list |
| Auth.SubmitDisabled | components/Auth.tsx:254 | the button is enabled exactly when no request is pending and all four requirements are met |
| Auth.HandleSubmit | components/Auth.tsx:149-166 | a weak password sets `Please fulfill all password requirements.` and leaves the table untouched; a strong one runs `register`, and its outcome decides the error (none, or its message) and the new table |

## Left out

- Latency and asynchrony: `sleep`, `setTimeout`, promises and `await` are left out. Each operation is one synchronous step, and a thrown error is an `Err` result.
- Persistent storage: `localStorage` and JSON are left out.
  - The load at start-up is the constructor's argument. Its invariant is a precondition, because corrupt or hand-edited stored content is not modelled.
  - The write-back is foreign I/O. It is modelled only as the ghost field `persisted`, which is kept equal to the table.
- The clock: `new Date().toISOString()` is the `createdAt` parameter.
- The secret: `MOCK_SECRET` is declared but never used, so it is not modelled.
- The rest of the source: React rendering, view state, `alert`, the dashboard, the app shell, token persistence by the caller, and the HTML `required` and `type="email"` checks are presentation and are not modelled.
- Number precision: integers are unbounded. `parseInt`'s conversion to a double is not modelled. So rounding above 2^53, and the approximation of digits past the 20th, are absent.
- Large-number rendering: the exponent notation a template literal uses for magnitudes of 10^21 and more is not modelled.
- Negative zero: `-0` is the same as `0` here, which matches `===`.
- Lone surrogates: Dafny strings hold Unicode scalar values, so an unpaired UTF-16 surrogate cannot occur in the model.
- Non-string record fields: records from the table are typed. The `ToString` of a non-string field read from storage is not modelled.
- Auth.HandleSubmit: the `loading` flag, `onSuccess` and the final `setLoading(false)` are view state. The method returns only the error the form would show.

# Email lifecycle in Dafny

A model of a small in-memory email library and proofs about it. The library
has three parts, and the first two exist twice:

- **`EmailAddress`** (`src/email_models.py` and `src/email_adress.py`).
  - An address is kept as given and in normalised form: lower-cased, then stripped.
  - Construction checks the normalised form, in this order: it must not be empty, it must contain `@`, and it must end in `.com`, `.ru` or `.net`.
  - `login`, `domain` and `masked` split at the first `@`.
  - Equality compares normalised forms.
- **`Email`** (`src/email_models.py` and `src/dataclass_email.py`).
  - A record whose constructor turns the sender and recipients into addresses.
  - `_clean_text` collapses whitespace.
  - `add_short_body` keeps at most `length` characters and adds `...` when it cuts.
  - `prepare` cleans the text and sets the status to READY or INVALID.
- **`EmailService`** (`src/email_service.py`).
  - `send_email` prepares an email that is not READY and raises `ValueError` if it is still not valid. Otherwise it makes one copy per recipient, each with that recipient alone, the current time and status SENT.
  - `send_multiple_emails` does this for a list and records `[]` for an email whose send raised `ValueError`.

How Python's features are represented:

- Raising an exception becomes a `Result` value. `None` becomes `Option`.
- The mutating methods become functions from the old record to the new one.
- `send_email` returns the caller's email as the call leaves it, together with the outcome.
- `datetime.now()` is a parameter: `clock(t)` is the `t`-th reading of the clock.

Modules:

| module | what it holds |
|---|---|
| `Results` | `Option` and `Result` |
| `Statuses` | the status enumeration |
| `Text` | the `str` operations the library uses |
| `Addresses` | the address class of `src/email_models.py` |
| `StandaloneAddresses` | the address class of `src/email_adress.py` |
| `Messages` | the email class of `src/email_models.py` |
| `DataclassMessages` | the email class of `src/dataclass_email.py` |
| `Service` | the sending service |

The two variants of each class are proved to agree. The one exception is the
comparison of an address with a string, where `src/email_adress.py`
differs (see Findings).

The copy loop of `send_email` has a FAILED branch (`src/email_service.py:48-51`) that cannot be reached. Only a READY email gets past the check at `src/email_service.py:32-33`, so every copy is SENT.

## Model

| member | source | states |
|---|---|---|
| Text.Strip | src/email_models.py:31 | `strip()` removes only whitespace, and only at the two ends: the result is an inner part of the input, has no whitespace at either end, and is empty exactly when the input is all whitespace |
| Text.Lower | src/email_models.py:31 | `lower()` keeps the length and lower-cases each character in place |
| Text.TrimLeftUnique | src/email_models.py:31 | the left strip removes exactly the leading whitespace run, however that run is found |
| Text.TrimRightUnique | src/email_models.py:31 | the right strip keeps exactly the prefix that ends in a non-whitespace character and is followed only by whitespace |
| Text.FirstIndex | src/email_models.py:61 | the point where `split("@", 1)` cuts holds an `@`, and no `@` comes before it |
| Text.CleanText | src/email_models.py:146-154 | `_clean_text` returns text whose only whitespace is single spaces between non-space characters; it has the same words as the input, in order; it is empty exactly when the input has no non-whitespace character |
| Text.WordsOfJoin | src/email_models.py:153-154 | splitting words that were joined with single spaces gives back the same words |
| Text.WordsSameSpacing | src/email_models.py:151-153 | replacing one whitespace character with another does not change what `split()` returns, so replacing tabs and newlines first changes nothing |
| Text.JoinIsClean | src/email_models.py:154 | joining words with single spaces leaves no leading, trailing, doubled or non-space whitespace |
| Text.Words | src/email_models.py:153 | a text of `n` characters has at most `(n + 1) / 2` words |
| Text.WordsKeepText | src/email_models.py:153 | `split()` loses nothing but whitespace: its words, put together, are exactly the text's non-whitespace characters in order |
| Text.WordsSplitAtSpace | src/email_models.py:153 | a whitespace character ends a word: `split()` of a text with whitespace at some position is `split()` of the part before it followed by `split()` of the part after it |
| Text.Join | src/email_models.py:154 | `" ".join` of no words is empty; otherwise its length is the words' total length plus one space between each pair |
| Text.ReplaceChar | src/email_models.py:151 | `replace` keeps the length and every character other than the replaced one; afterwards the replaced character no longer occurs; replacing whitespace with whitespace leaves the whitespace where it was |
| Text.ReplaceRoundTrip | src/email_models.py:151 | replacing with a character the text does not contain, then replacing back, gives the text again, so every replaced position holds the replacement |
| Text.WordsAreWords | src/email_models.py:153 | every item `split()` returns is a non-empty run of non-whitespace characters |
| Text.WordsEmptyIff | src/email_models.py:148-154 | `split()` returns no words exactly when the text has no non-whitespace character |
| Text.CleanTextIdempotent | src/email_models.py:146-154 | cleaning cleaned text changes nothing |
| Text.CleanTextKeepsText | src/email_models.py:146-154 | `_clean_text` keeps every non-whitespace character of the text, in order |
| Addresses.Normalize | src/email_models.py:27-31 | normalising equals stripping and then lower-casing; the result has no upper-case letter and no whitespace at either end; it is empty exactly when the input is all whitespace |
| Addresses.Create | src/email_models.py:21-48 | construction succeeds exactly when the input contains `@` and its normalised form ends in an allowed suffix. On success it keeps the input and its normalised form. Failures follow the code's order: empty exactly for an all-whitespace input, missing `@` exactly for other inputs without `@`, unsupported domain for the rest. The last two carry the normalised address |
| Addresses.Login | src/email_models.py:69-74 | the login has no `@` and is a prefix of the normalised address; it is empty when there is no `@` |
| Addresses.Domain | src/email_models.py:76-81 | login, `@` and domain put together give back the normalised address; without an `@` the domain is empty |
| Addresses.Masked | src/email_models.py:55-67 | the masked form is the first two characters of the login (all of it if shorter), then `***@`, then the domain; without an `@` it is the normalised address |
| Addresses.NormalizeIdempotent | src/email_models.py:27-31 | normalising twice gives what normalising once gives |
| Addresses.SplitRoundTrip | src/email_models.py:55-81 | for a constructed address, login + `@` + domain is the address, the login has no `@`, and the masked form has length min(login length, 2) + 4 + domain length |
| Addresses.StringEqualityViaCreate | src/email_models.py:91-98 | comparing a valid address with a string holds exactly when the string builds an address equal to it |
| Addresses.EqualsOwnOriginal | src/email_models.py:91-98 | an address equals the string it was built from |
| Addresses.Validate | src/email_models.py:33-48 | the check passes exactly for well-formed addresses; it reports "empty" exactly for the empty string and a missing `@` exactly for other strings without one; the last two errors carry the checked string |
| Addresses.Equals | src/email_models.py:91-98 | two addresses with an `@` are equal exactly when their logins and domains are; a string equals a well-formed address exactly when it builds an address with the same normalised form; any other operand is unequal |
| Addresses.SameParts | src/email_models.py:93-94 | two addresses with an `@` have the same normalised form exactly when they have the same login and domain |
| Addresses.SameNormalForm | src/email_models.py:95-97 | a string normalises to a well-formed address's form exactly when it builds an address with that form |
| Addresses.EqualsIsEquivalence | src/email_models.py:91-94 | comparing two addresses is reflexive, symmetric and transitive |
| Addresses.ExampleMissingAtFirst | src/email_models.py:34-48 | `abc.org` fails on the missing `@`, before the suffix check |
| Addresses.ExampleBlank | src/email_models.py:27-37 | a whitespace-only address fails as empty |
| Addresses.ExampleMaskOne | src/email_models.py:61-67 | a one-character login is kept whole before the stars |
| Addresses.ExampleSecondAt | src/email_models.py:76-81 | only the first `@` splits: the domain of `a@b@c.com` is `b@c.com` |
| StandaloneAddresses.Normalized | src/email_adress.py:8-12 | this class's normaliser equals the other class's |
| StandaloneAddresses.Validate | src/email_adress.py:14-24 | the check passes exactly for a non-empty address with `@` and an allowed suffix; it reports "empty" exactly for the empty string |
| StandaloneAddresses.ValidateAgrees | src/email_adress.py:14-24 | this class reports the same first failure as the other class |
| StandaloneAddresses.Create | src/email_adress.py:3-6 | this class accepts and rejects exactly what the other class does, with the same errors and the same stored fields |
| StandaloneAddresses.Login | src/email_adress.py:45-50 | the login agrees with the other class's |
| StandaloneAddresses.Domain | src/email_adress.py:52-57 | the domain agrees with the other class's |
| StandaloneAddresses.Masked | src/email_adress.py:31-43 | the masked form agrees with the other class's |
| StandaloneAddresses.Equals | src/email_adress.py:67-73 | as written: comparing with a string raises, and every other comparison agrees with the other class |
| StandaloneAddresses.EqualsCorrected | src/email_adress.py:67-73 | with the string normalised by the static method `EmailAddress._normalized`, comparison agrees with the other class for every operand |
| StandaloneAddresses.StringComparisonCounterexample | src/email_adress.py:71-72 | for the address `a@x.com` and the string `A@X.com`, the written comparison raises and the corrected one holds |
| Messages.CoerceAll | src/email_models.py:136-144 | the list either converts in full (same length, and each element is the address its argument stands for) or fails with the error of the first element that fails |
| Messages.NormalizeRecipients | src/email_models.py:126-144 | a falsy argument gives no recipients, a single one gives one, a list gives its elements in order; a string that is not an address raises |
| Messages.Construct | src/email_models.py:113-124 | the sender's error wins; once the sender converts, a failure is the error of the first recipient that does not convert; construction succeeds exactly when sender and recipients convert; text, status and date are stored as given; a missing short body becomes empty; the sender and each recipient are what the arguments stand for |
| Messages.CoerceSender | src/email_models.py:116-117 | a string sender is parsed and raises exactly when parsing raises, with that error; an address is kept; no sender stays `None` |
| Messages.Excerpt | src/email_models.py:162-166 | the short body is the cleaned body if it fits in `length`; otherwise it is the first `length` characters followed by `...`, so its length is min(length, cleaned length) plus 3 when cut |
| Messages.AddShortBody | src/email_models.py:156-166 | only the short body changes, to the excerpt of the cleaned body; a body without text gives an empty short body |
| Messages.CleanAndCheck | src/email_models.py:175-184 | only subject, body and status change; subject and body become their cleaned forms; the status is READY exactly when subject and body have text, there is a sender and at least one recipient, and INVALID otherwise |
| Messages.Prepare | src/email_models.py:168-187 | the status is READY exactly when the email is complete, and INVALID otherwise; sender, recipients and date are unchanged; subject and body are clean; the short body is the excerpt of the cleaned body, at most 53 characters long |
| Messages.PrepareIdempotent | src/email_models.py:168-187 | preparing a prepared email changes nothing |
| Messages.PrepareKeepsWords | src/email_models.py:176-177 | preparing keeps the words of subject and body, in order |
| Messages.ValidAfterPrepare | src/email_models.py:189-191 | after `prepare`, `is_valid` holds exactly when subject and body have text, there is a sender and at least one recipient |
| Messages.ReadyConditionIsComplete | src/email_models.py:180-181 | the redundant test `len(recipients) > 0` changes nothing: the condition on the cleaned fields is exactly completeness of the original ones |
| DataclassMessages.Create | src/dataclass_email.py:20-51 | building with this file's address class gives what the other email class builds |
| DataclassMessages.Prepare | src/dataclass_email.py:75-93 | this file's `prepare`, which tests only whether the recipient list is empty, decides and cleans exactly as the other class's |
| DataclassMessages.PrepareIdempotent | src/dataclass_email.py:75-93 | preparing a prepared email changes nothing |
| Service.FanOut | src/email_service.py:37-53 | one copy per recipient, in recipient order; copy `i` goes to recipient `i` only, with the `i`-th clock reading |
| Service.Deliver | src/email_service.py:32-55 | a send raises `ValueError` exactly when the email is not READY; otherwise copy `i` has the email's subject, body, sender and short body, recipient `i` alone, a date and status SENT |
| Service.SendEmail | src/email_service.py:14-55 | only an email that is not READY is prepared; the send raises exactly when the email is not READY afterwards; for an email that was not READY, it succeeds exactly when the email was complete; on success the copies match the recipients one to one and each is a SENT copy |
| Service.SendEmailAsWritten | src/email_service.py:29-55 | as written, every call raises: `ValueError` exactly when the email is not READY after the preparation step, the accumulator error otherwise |
| Service.AsWrittenRaisesWhereCorrectedSends | src/email_service.py:35-55 | the written send leaves the email as the corrected send does, and raises the accumulator error exactly when the corrected send returns copies |
| Service.UnboundAccumulatorCounterexample | src/email_service.py:35-55 | for a READY email with no recipients, the written send raises and the corrected one returns no copies |
| Service.CopiesDatedInOrder | src/email_service.py:45 | with a clock that never runs backwards, the copies are dated in recipient order |
| Service.CopiesCoverRecipients | src/email_service.py:37-42 | copy `i` has recipient `i` as its only recipient |
| Service.DraftIsSentIffComplete | src/email_service.py:29-33 | a DRAFT is sent exactly when it is complete, and then there is at least one copy |
| Service.ReadyIsSentUnchanged | src/email_service.py:29-30 | an email already marked READY is neither cleaned nor checked again; it is sent even with no recipients, giving no copies |
| Service.SendMultiple | src/email_service.py:58-77 | one entry per email, in order; each entry is what sending that email gives, or `[]` when it raised; each email is left as its send left it; the clock continues from one email to the next; an entry is empty exactly when the send raised or the email has no recipient |
| Service.EntryEmptyIff | src/email_service.py:70-75 | an entry is empty exactly when the send raised or there was no recipient |
| Service.HandledStep | src/email_service.py:69-75 | one more pass of the loop keeps the earlier entries and adds the entry of the next email |
| Service.CollectOutcomes | src/email_service.py:68-77 | the loop returns exactly when no send raised anything but `ValueError`, with one entry per send (copies or `[]`); otherwise it raises the error of the first send that raised something other than `ValueError` |
| Service.SendMultipleAsWritten | src/email_service.py:68-77 | as written, the call returns only when every email fails the validity check, and then every entry is `[]`; otherwise it raises the accumulator error |

## Left out

- Whitespace: `split()`, `strip()` and `isspace` use six characters here (space, tab, line feed, vertical tab, form feed, carriage return). Python also counts `\x1c`–`\x1f` and the Unicode spaces. Those would only lengthen the predicate.
- Lower-casing covers the ASCII letters A–Z only. Unicode case mapping is outside what the model treats.
- Python's dynamic typing:
  - a `None` or non-string address handed to `_normalize`;
  - a subject or body that is not a string;
  - a sender of some third type;
  - list elements that are neither strings nor addresses.

  Each argument is typed instead. A sender of `None` is kept.
- `add_short_body` with a negative `length`, where Python's slice counts from the end. `length` is a natural number here.
- `__str__`, `__repr__`, the `address` property and the `print` in `send_multiple_emails`. They only produce text for display.
- The clock. It is a parameter, so no particular time is modelled.
- `copy.deepcopy` is taken to be a deep copy. `src/email_service.py:4` imports `copy` from a third-party package that is not part of this model. Records here are values, so a copy is the record itself.
- The `Status` enumeration (`src/status.py`, and a copy at `src/email_models.py:8-15`) is one datatype. Its string values are not modelled.
- Messages.Create: has no contract of its own. It is `Construct` with the first class's address parser, and `Messages.Construct` states the contract.
- Messages.PrepareKeepsWords: the word-preservation property of `prepare` is a separate lemma, not an `ensures` of `Prepare`.
- Service.SendMultipleAsWritten: returns only the outcome. It does not return the emails as `prepare` left them before the error.

## Findings

| source | as written | input that shows it | evidently intended | confidence | as-written member | corrected member |
|---|---|---|---|---|---|---|
| src/email_service.py:35 | `sent_emails: []` only annotates the name and binds nothing, so the first `append` (or the `return` when there is no recipient) raises `UnboundLocalError`. That is not a `ValueError`, so it also escapes `send_multiple_emails` | a READY email from `a@x.com` with subject `Hi`, body `Hello` and no recipients: the loop never runs and `return sent_emails` raises | `sent_emails = []`: one SENT copy per recipient, and `[]` for no recipients | not executed | Service.SendEmailAsWritten, Service.SendMultipleAsWritten, Service.UnboundAccumulatorCounterexample | Service.SendEmail, Service.SendMultiple |
| src/email_adress.py:72 | `__eq__` calls `self._normalize`, but the class only defines `_normalized`, so comparing with a string raises `AttributeError` | the address `a@x.com` compared with the string `A@X.com` | `EmailAddress._normalized(other)`. Writing `self._normalized(other)` would raise `TypeError`, because the constructor at `src/email_adress.py:5` stores a string in an instance attribute of that name, which hides the static method | not executed | StandaloneAddresses.Equals, StandaloneAddresses.StringComparisonCounterexample | StandaloneAddresses.EqualsCorrected |

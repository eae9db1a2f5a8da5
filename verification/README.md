# Password vault: a Dafny model

This project models the core of a small password vault. The vault has three parts:

- **An Express/MongoDB backend.**
  - It seals each stored secret with AES-256-GCM under a master key.
  - It keeps credential records per owner.
  - It issues single-use autofill tokens.
  - It runs signup, local login and Google login through passport.
- **A React dashboard.** It sorts, groups and edits the credential list.
- **A Chrome extension.** It fills login forms on other sites.

Every component is modelled as immutable data and pure functions. Methods are used only where the source loops over time.

| file | module | models |
|---|---|---|
| `wrappers.dfy` | `Wrappers` | `Option` and `Result` |
| `text.dfy` | `Text` | JavaScript truthiness of strings; prefix, substring and lower-case helpers; code-point string order |
| `sorting.dfy` | `Sorting` | a stable insertion sort over any total preorder |
| `encoding.dfy` | `Bytes`, `Hex`, `Base64` | hex with Node's lenient decoding, and base64 (RFC 4648, section 4) |
| `crypto.dfy` | `Crypto` | `encrypt` and `decrypt` over an abstract AEAD |
| `records.dfy` | `Records` | the `Password` collection and the record routes |
| `tokens.dfy` | `Tokens` | the in-memory token table with its timers |
| `accounts.dfy` | `Accounts` | the `User` collection, signup, login, `/me`, the Google strategy, the session |
| `dashboard.dfy` | `Dashboard` | `getDomain`, the sort comparator, the grouping, submit, the toggles, the autofill target |
| `dom.dfy` | `Dom` | input elements, attribute selectors, `querySelector`, page effects |
| `autofill.dfy` | `Autofill` | the background script: `waitForElement`, the single- and multi-step fill, the observer deadline, the tab listener |
| `popup.dfy` | `Popup` | the popup: the one-shot fill, its setter, the credential list |

## Collaborators supplied as parameters

These outside services and inputs are passed in as parameters:

- **The cipher.** `Crypto.Aead` is a pair of functions. `Crypto.Sound` states what is assumed of them:
  - a 16-byte tag;
  - opening a genuine ciphertext with its tag, or with its first 4, 8 or 12 to 16 tag bytes, gives the plaintext back;
  - any successful open is of a genuine ciphertext with such a leading part of its tag;
  - counter mode is injective.
- **UTF-8.** `Crypto.Utf8` with `Crypto.Faithful`.
- **bcrypt.** `Accounts.Hasher` with `Accounts.Consistent`.
- **Values normally generated or read at run time:**
  - the random IV and token bytes;
  - fresh ObjectIds;
  - the salt;
  - the clock;
  - the master key.
- **Time.**
  - On the backend, time is an integer count of milliseconds. Token timers are explicit: every timer due by the time of a request fires before the request is handled.
  - In the extension, time is counted in 100 ms ticks from injection.
- **The web page.** It is a timeline of snapshots. Each snapshot holds the document's input elements and a flag for whether a child-list mutation happened at that tick.

## Model

| member | source | states |
|---|---|---|
| Hex.DecodeEncode | backend/routes/passwords.js:158 | the hex text of any bytes decodes back to exactly those bytes |
| Hex.DecodeStopsAtNonDigit | backend/utils/encrypt.js:6 | hex decoding stops at the first pair that is not two hex digits, so a non-digit among the first 2n characters leaves fewer than n bytes |
| Base64.DecodeEncode | backend/utils/encrypt.js:13-14 | base64 decoding inverts base64 encoding for every byte string |
| Base64.EncodeLength | backend/utils/encrypt.js:13-14 | the encoding is four characters per started group of three bytes |
| Base64.DecodeLength | backend/utils/encrypt.js:20-21 | only text made of whole four-character groups decodes |
| Crypto.KeyFrom | backend/utils/encrypt.js:6-8 | the master key is accepted exactly when its hex decodes to 32 bytes, and is then those bytes; otherwise the cipher refuses the key length |
| Crypto.KeyFromHexOfBytes | backend/utils/encrypt.js:6 | 32 bytes written as hex are accepted as the key and are those bytes |
| Crypto.KeyRefusesNonDigit | backend/utils/encrypt.js:6 | a master key with a non-hex character among its first 64 is refused |
| Crypto.SplitTag | backend/utils/encrypt.js:22-23 | the two slices at length-16 together give the blob back; the tag is 16 bytes exactly when the blob has at least 16 |
| Crypto.ShortSplit | backend/utils/encrypt.js:22-23 | with negative slice indices, a blob under 8 bytes is taken whole as the tag, and a blob of 8 to 15 bytes gives a tag of 16 minus its length |
| Crypto.SplitConcat | backend/utils/encrypt.js:13-23 | splitting ciphertext followed by a 16-byte tag gives back the ciphertext and the tag |
| Crypto.Encrypt | backend/utils/encrypt.js:5-16 | sealing succeeds exactly when the key is accepted; the nonce decodes to the IV and the stored ciphertext decodes to the sealed body followed by its tag |
| Crypto.Decrypt | backend/utils/encrypt.js:18-28 | a bad key or unreadable base64 fails; a split-off tag of a length `setAuthTag` refuses fails; a text is returned only when the cipher opens the split body and tag, and it is the UTF-8 decoding of the opened bytes |
| Crypto.RoundTrip | backend/utils/encrypt.js:5-28 | whatever `encrypt` stores, `decrypt` under the same key returns as the original text |
| Crypto.Authenticated | backend/utils/encrypt.js:22-27 | whenever `decrypt` returns a text, the stored blob is a genuine ciphertext, under that key and IV, of bytes that decode to the text, followed by the first 4, 8 or 12 to 16 bytes of its tag; a blob of 16 bytes or more is the seal with its whole tag |
| Crypto.TruncatedTagDecrypts | backend/utils/encrypt.js:22-27 | the 8-byte ciphertext of a text followed by only the first 4 bytes of its tag still decrypts to the text |
| Crypto.TamperedTagFails | backend/utils/encrypt.js:25-26 | replacing the stored tag with any other 16 bytes makes `decrypt` fail authentication |
| Crypto.ShortBlobFails | backend/utils/encrypt.js:22-26 | a stored blob shorter than a tag never decrypts unless it is 4, 8 or 12 bytes long |
| Crypto.ShortBlobTagAccepted | backend/utils/encrypt.js:22-25 | a blob shorter than a tag yields a tag `setAuthTag` accepts exactly when it is 4, 8 or 12 bytes long |
| Records.Find | backend/routes/passwords.js:90-91 | the match for `{ _id, user }` is the first record with that id and owner, and no record matches when none is returned |
| Records.FindUnique | backend/models/Password.js:16-19 | with distinct ids the matched record is the only one with that id |
| Records.Create | backend/routes/passwords.js:43-64 | incomplete fields give 400 "Missing fields" with the store unchanged; a key failure gives 500; otherwise exactly one record is appended, unpinned, and the reply is 201 with its id and `pinned` false |
| Records.Update | backend/routes/passwords.js:70-103 | validation, then a fresh seal, then the owned record is revised; `pinned` changes only when supplied; a missing or foreign id gives 404 "Password not found"; every other record is unchanged |
| Records.TogglePin | backend/routes/passwords.js:108-126 | the owned record's `pinned` is negated and returned; every other record is unchanged; a missing or foreign id gives 404 |
| Records.DeleteByUserAndId | backend/models/Password.js:16-19 | the first record matching `{ _id, user }` is removed and returned; nothing changes when none matches |
| Records.Delete | backend/routes/passwords.js:133-146 | the reply is 404 "Not found or not authorized" exactly when nothing matches, with the store unchanged; otherwise the reply is 200 and exactly the matched record is removed, the others keeping their order |
| Records.DeleteRemovesId | backend/routes/passwords.js:133-141 | after a successful delete no record carries the id, and the store stays valid |
| Records.SecondDeleteNotFound | backend/routes/passwords.js:135-138 | a second delete of the same id answers 404 and changes nothing |
| Records.OwnershipIsolation | backend/routes/passwords.js:90-138 | update, pin toggle and delete leave every record of another owner in the store |
| Records.ListedBeforeIsTotalPreorder | backend/routes/passwords.js:20-21 | the listing order, pinned first and then newest first, is a total preorder |
| Records.OwnedBy | backend/routes/passwords.js:20 | `find({ user })` keeps exactly the owner's records |
| Records.Entries | backend/routes/passwords.js:23-31 | one entry per record, with its decrypted password, exactly when every record decrypts |
| Records.Listed | backend/routes/passwords.js:20-21 | the listing is a permutation of the owner's records, sorted pinned first and then newest first |
| Records.List | backend/routes/passwords.js:18-37 | 200 exactly when every listed record decrypts, else 500 "Server error"; each entry carries its record's id, website, username, decrypted password, pin state and update time, in listing order; the store is unchanged |
| Records.CreatePreservesValid | backend/models/Password.js:3-13 | a create with a fresh id and a signed-in owner keeps ids distinct and every required field non-empty |
| Records.UpdatePreservesValid | backend/models/Password.js:3-13 | an update keeps ids distinct and every required field non-empty |
| Records.TogglePinPreservesValid | backend/models/Password.js:3-13 | a pin toggle keeps ids distinct and every required field non-empty |
| Records.FreshIvKeepsNoncesDistinct | backend/utils/encrypt.js:7-14 | with a fresh IV per call, create and update keep every stored nonce distinct |
| Records.UpdateReseals | backend/routes/passwords.js:77-94 | after a successful update the stored seal opens to the new password, and `pinned` is the supplied value or the old one |
| Records.CreateThenList | backend/routes/passwords.js:18-64 | a credential created for a new owner is listed back alone, decrypted and unpinned |
| Records.CreateThenToggleTwice | backend/routes/passwords.js:43-126 | toggling a freshly created credential's pin twice answers true, then false |
| Records.OwnedByAppend | backend/routes/passwords.js:20 | appending an owner's record appends it to that owner's listing |
| Records.FindLast | backend/routes/passwords.js:110 | a record appended for an owner who had none is the one the match finds |
| Tokens.Advance | backend/routes/passwords.js:160-164 | every due timer deletes its token if present; the other entries and the pending timers are kept |
| Tokens.Issue | backend/routes/passwords.js:153-166 | missing credentials give 400 "Please provide all credentials"; otherwise the token is the 32-character hex of the random bytes and is filed with the credentials and a timer due in 60 000 ms; every other live token keeps its credentials, and the only new timer is the token's |
| Tokens.Consume | backend/routes/passwords.js:171-180 | a live token yields its credentials and is deleted in the same step, with every other token and every pending timer kept; otherwise 404 "Token not found or has expired" and nothing but expiry changes |
| Tokens.IssueThenConsume | backend/routes/passwords.js:153-180 | a token consumed within its lifetime yields exactly the credentials it was issued for |
| Tokens.SecondConsumeFails | backend/routes/passwords.js:173-178 | a token can be read only once |
| Tokens.ExpiredTokenFails | backend/routes/passwords.js:160-164 | after 60 000 ms an unconsumed token is refused like an unknown one |
| Tokens.StaysArmed | backend/routes/passwords.js:159-164 | every filed token keeps a timer that will delete it, across issue and consume |
| Accounts.ViewHidesSecrets | backend/routes/auth.js:37 | a reply's user view never depends on the password hash or the Google id |
| Accounts.FindByEmail | backend/routes/auth.js:13 | `findOne({ email })` is the first account with that email, and none is returned only when no account has it |
| Accounts.Signup | backend/routes/auth.js:9-27 | a missing email or password gives 400 "Email & password required"; a taken email gives 400 "Email already exists"; both leave the accounts unchanged; success appends one account holding the salted hash and replies with its view |
| Accounts.SignupPreservesValid | backend/models/User.js:3-8 | signup with a fresh id keeps emails unique (among accounts with one) and ids distinct |
| Accounts.LocalVerify | backend/passportConfig.js:12-23 | an unknown email is rejected with "No user"; an account without a password hash with "Use Google login"; a hash the password does not match with "Wrong password"; the strategy authenticates exactly when the account has a hash that the password matches, and then with that account |
| Accounts.LoginReply | backend/routes/auth.js:30-40 | a rejection is 400 with its message, or "Invalid credentials" when the message is empty; success is 200 with the user view |
| Accounts.Login | backend/routes/auth.js:30-33 | a missing or empty email or password is refused with 400 "Missing credentials" before any account is looked up; otherwise the local strategy's verdict decides the reply |
| Accounts.MissingCredentialsIgnoreAccounts | backend/routes/auth.js:30-33 | a login without both credentials gets the same 400 whatever accounts exist |
| Accounts.SignupThenLogin | backend/routes/auth.js:9-40 | after signing up, logging in with the same email and password succeeds with the same reply |
| Accounts.WrongPasswordRefused | backend/passportConfig.js:17-18 | a non-empty password that does not match the account's hash is refused with 400 "Wrong password" |
| Accounts.Me | backend/routes/auth.js:50-53 | without a session user the reply is 401 "unauthenticated"; otherwise it is 200 with that user's view |
| Accounts.MeAfterLogin | backend/routes/auth.js:30-53 | after a successful login, `/me` on the session answers exactly what the login answered, although the account read back has lost its hash |
| Accounts.FindForGoogle | backend/passportConfig.js:32-33 | the Google lookup is the first account with the Google id or with the profile's email; for a profile without an email, the first account with the id or without an email |
| Accounts.GoogleVerify | backend/passportConfig.js:26-48 | with no match, one account is created with the Google id, email and display name; an unlinked match gets the Google id linked; a linked match is returned unchanged; no other account changes |
| Accounts.GooglePreservesValid | backend/passportConfig.js:33-43 | Google sign-in never creates a second account for an email, and ids stay distinct |
| Accounts.GoogleIdempotent | backend/passportConfig.js:33-44 | signing in twice with the same profile changes nothing the second time |
| Accounts.EmailLessProfilesShareAccount | backend/passportConfig.js:32-44 | a second Google user without an email is signed in to the account created for a first one without an email |
| Accounts.FindForGoogleIntended | backend/passportConfig.js:32-33 | the corrected lookup: the first account with the Google id, or with the profile's email when it has one |
| Accounts.IntendedLookupKeepsAccountsApart | backend/passportConfig.js:32-33 | with the corrected lookup a profile without an email finds only an account linked to its own Google id |
| Accounts.LookupsAgreeWithEmail | backend/passportConfig.js:32-33 | the written and corrected lookups agree for every profile that has an email |
| Accounts.Deserialize | backend/passportConfig.js:52-54 | the session id finds the account exactly when one has it, and the found account carries no password hash |
| Accounts.SessionRoundTrip | backend/passportConfig.js:51-54 | serialising then deserialising an account gives that account without its password hash |
| Dashboard.StripWww | client/src/pages/Dashboard.jsx:23 | a leading `www.` is removed and nothing else |
| Dashboard.Hostname | client/src/pages/Dashboard.jsx:22 | a parsed host is non-empty, lower-case-safe and contains no forbidden code point or `/` |
| Dashboard.Fallback | client/src/pages/Dashboard.jsx:25 | the fallback domain is non-empty and contains no `/` |
| Dashboard.WithScheme | client/src/pages/Dashboard.jsx:18-21 | a URL without `http://` or `https://` gets `https://` in front; one with either is kept |
| Dashboard.GetDomain | client/src/pages/Dashboard.jsx:15-27 | an empty or missing URL is "unknown", and no domain contains `/` |
| Dashboard.EmptyDomainIsBareWww | client/src/pages/Dashboard.jsx:16-23 | the only URLs filed under the empty domain are those whose host is exactly `www.` |
| Dashboard.SchemeIrrelevant | client/src/pages/Dashboard.jsx:19-22 | `http://` and `https://` forms of a URL name the same domain |
| Dashboard.BareUrlIsHttps | client/src/pages/Dashboard.jsx:19-20 | a URL without a scheme has the domain of its `https://` form |
| Dashboard.PlainHostIsItsDomain | client/src/pages/Dashboard.jsx:15-27 | a plain lower-case host name is its own domain, with or without scheme, `www.` and path; plain excludes names ending in a number and Punycode labels |
| Dashboard.WordIsPlain | client/src/pages/Dashboard.jsx:15-27 | a name of lower-case letters not starting `www.` is a plain host |
| Dashboard.AddressIsNotPlain | client/src/pages/Dashboard.jsx:22 | an IPv4 address such as `192.168.1.1` ends in a number and is not a plain host |
| Dashboard.HostOfAuthority | client/src/pages/Dashboard.jsx:22 | in the simplified host parser, the host of `https://` + host + path is the host when the host has only plain characters |
| Dashboard.Compare | client/src/pages/Dashboard.jsx:63-69 | pinned entries come first, then the domains decide, then the usernames; equality means same pin state, domain and username |
| Dashboard.CompareAntisymmetric | client/src/pages/Dashboard.jsx:63-69 | swapping the arguments negates the comparison |
| Dashboard.CompareTransitive | client/src/pages/Dashboard.jsx:63-69 | the comparison is transitive |
| Dashboard.PrecedesIsTotalPreorder | client/src/pages/Dashboard.jsx:63-69 | the comparator is a consistent total preorder, so the sort is well defined |
| Dashboard.SortForView | client/src/pages/Dashboard.jsx:63 | the sorted list is a permutation of the list, ordered by the comparator, and entries the comparator ties keep their order |
| Sorting.InsertLevel | client/src/pages/Dashboard.jsx:63 | inserting an element puts it ahead of the elements ranked level with it and leaves every other level as it was |
| Sorting.SortStable | client/src/pages/Dashboard.jsx:63 | the sort keeps the relative order of the elements on each level of the preorder |
| Dashboard.PinnedFirst | client/src/pages/Dashboard.jsx:64-65 | in the sorted list every pinned entry precedes every unpinned one |
| Dashboard.DomainsAscend | client/src/pages/Dashboard.jsx:66-67 | among entries with the same pin state, domains ascend |
| Dashboard.Group | client/src/pages/Dashboard.jsx:71-76 | distinct keys, one non-empty group per key, every item's key present, each group the items of that key in list order |
| Dashboard.GroupKeysFirstSeen | client/src/pages/Dashboard.jsx:71-76 | the keys come in the order in which they first occur in the list |
| Dashboard.GroupIsPartition | client/src/pages/Dashboard.jsx:71-76 | the groups together hold exactly the items of the list |
| Dashboard.GroupByDomain | client/src/pages/Dashboard.jsx:71-76 | every entry is in the group of its domain, a group holds only entries of its domain, and the groups partition the list |
| Dashboard.WithKeySorted | client/src/pages/Dashboard.jsx:71-76 | a group of a sorted list is itself sorted |
| Dashboard.Arrange | client/src/pages/Dashboard.jsx:62-78 | the grouped list partitions the list and every group is in comparator order |
| Dashboard.GroupAsWrittenFailsExactly | client/src/pages/Dashboard.jsx:71-76 | the grouping as written throws exactly when some domain is a name inherited from `Object.prototype`, and otherwise equals the corrected grouping |
| Dashboard.ConstructorCrashesGrouping | client/src/pages/Dashboard.jsx:71-76 | a credential for the site `constructor` makes the written grouping throw |
| Dashboard.Submit | client/src/pages/Dashboard.jsx:92-102 | an empty field alerts "Please fill in all fields."; otherwise the request is PUT to `/passwords/<id>` exactly when an edit id is set, and POST to `/passwords` otherwise, carrying the three fields |
| Dashboard.SubmitPassesServerCheck | client/src/pages/Dashboard.jsx:94 | the page sends a request exactly when the server's own field check would accept it |
| Dashboard.ApplyPin | client/src/pages/Dashboard.jsx:131-135 | the entry with the id takes the new pin state and every other entry is unchanged |
| Dashboard.ApplyPinIdempotent | client/src/pages/Dashboard.jsx:134 | applying the same pin state twice is the same as once |
| Dashboard.HandlePinToggle | client/src/pages/Dashboard.jsx:131-135 | the entry with the id takes the pin state of the reply, or reads as unpinned when the reply carries none; every other entry is unchanged |
| Dashboard.PinToggleFollowsServer | client/src/pages/Dashboard.jsx:131-135 | after a toggle the entry shows the stored pin state when the caller owns the record, and shows unpinned while the store is unchanged otherwise |
| Dashboard.Toggle | client/src/pages/Dashboard.jsx:145-149 | the toggled key reads as its negation and every other key reads as before |
| Dashboard.ToggleTwice | client/src/pages/Dashboard.jsx:145-149 | toggling the same key twice restores every reading |
| Dashboard.AsWrittenTargetLacksScheme | client/src/pages/Dashboard.jsx:152 | the written check sends the site `httpbin.org` as a target URL with no scheme |
| Dashboard.AutofillTarget | client/src/pages/Dashboard.jsx:152 | the corrected target always has a scheme, and past its scheme it is the website past its own |
| Dashboard.AutofillTargetAgrees | client/src/pages/Dashboard.jsx:152 | the written and corrected targets agree unless the website starts with `http` without a scheme |
| Dashboard.SeamlessAutofill | client/src/pages/Dashboard.jsx:151-157 | the request carries the credential's username and password; a website starting with `http` is sent unchanged; the target has a scheme and the credential's own domain whenever the website has a scheme or does not start with `http` |
| Dashboard.SeamlessAutofillIntended | client/src/pages/Dashboard.jsx:151-157 | with the corrected target every request has a scheme and the credential's own domain, an empty website included |
| Dashboard.BareSchemeIsUnknown | client/src/pages/Dashboard.jsx:15-27 | a lone `https://` parses to no host and falls back to "unknown", the domain of an empty website |
| Dom.QuerySelector | extension/background.js:23 | the first element in document order matched by any selector of the list, and none only when no element matches |
| Dom.ApplyConcat | extension/background.js:70-75 | applying two effect sequences in turn is applying their concatenation |
| Dom.ApplyUntouched | extension/popup.js:32-37 | a field no effect assigns keeps its value |
| Autofill.FirstTick | extension/background.js:17-36 | reference definition: the first tick of a range at which the field is found |
| Autofill.SetValue | extension/background.js:5-14 | the native setter is used exactly when the prototype has one, else plain assignment, which is dropped exactly when the prototype's `value` accessor has no setter; one bubbling `input` event follows |
| Autofill.SetValueEffect | extension/background.js:5-14 | the field ends up holding the value, unless its `value` accessor has no setter, in which case nothing changes; nothing else changes, and exactly one bubbling `input` event reaches it |
| Autofill.WaitForElement | extension/background.js:17-36 | at most 100 polls; the callback runs exactly once, at the first tick the field is found with that field, or at the 100th poll with null; the interval is cleared |
| Autofill.Observe | extension/background.js:80-98 | the observer fills the password at the first mutation showing the field before 15 000 ms and disconnects then, or is disconnected by the timeout having filled nothing |
| Autofill.FillFound | extension/background.js:69-98 | the username is filled first; with the password field present it is filled and no observer is made; otherwise the observer's outcome follows |
| Autofill.FillTheForm | extension/background.js:63-99 | no username field within the polls gives the timeout alert and fills nothing; otherwise the username is filled first, an observer is made exactly when no password field is present, and it is disconnected within its lifetime |
| Autofill.SingleStepFillsBoth | extension/background.js:70-76 | on a single-step form each field that takes the assignment ends up holding its credential, and a field whose accessor has no setter keeps its value |
| Autofill.OnMessage | extension/background.js:104-109 | only a `SEAMLESS_AUTOFILL` message opens a tab, an active one on the target URL carrying the credentials |
| Autofill.SeamlessAutofillLaunches | extension/background.js:104-109 | a dashboard autofill opens an active tab carrying that credential, on a URL with a scheme whenever the website has one or does not start with `http` |
| Autofill.HttpPrefixedSiteLaunchesWithoutScheme | extension/background.js:104-109 | the site `httpbin.org` is opened as the URL `httpbin.org`, with no scheme |
| Autofill.IntendedAutofillLaunches | extension/background.js:104-109 | with the corrected target every autofill opens a tab on a URL with a scheme |
| Autofill.ListenForLoad | extension/background.js:110-123 | the script is injected once, at the first update of the new tab whose status is `complete`, and the listener is then removed; with no such update it stays registered |
| Popup.SetValue | extension/popup.js:5-22 | with no `value` descriptor the setter throws; otherwise the native setter is used exactly when present, else an assignment the setter-less accessor drops, then one bubbling `input` event |
| Popup.SetValueEffect | extension/popup.js:5-22 | a call changes the field exactly when it has a native setter, and changes nothing else |
| Popup.FillTheForm | extension/popup.js:24-37 | the alert is shown exactly when either field is missing; otherwise the username is filled first and the password next unless the first setter threw |
| Popup.MissingFieldTouchesNothing | extension/popup.js:35-37 | when either field is missing no field is assigned |
| Popup.FillsBoth | extension/popup.js:32-34 | with both fields present and distinct, a field with a native setter ends up holding its credential and any other field keeps its value; a username field without a descriptor throws before either field is written |
| Popup.Render | extension/popup.js:59-95 | 401 asks the user to log in; another failure or an unreadable body reports the backend unreachable; an empty list says none are saved; otherwise one item per credential with its label and credentials |
| Popup.LabelShape | extension/popup.js:84 | an item reads `website (username)` |
| Popup.ClickFillsThatRecord | extension/popup.js:85-87 | clicking the i-th item writes exactly the i-th credential's username and password into the fields that have a native setter |

## Left out

- `Crypto.Aead`, `Crypto.Utf8` and `Accounts.Hasher` are abstract.
  - The AES block cipher, GHASH, UTF-8 and bcrypt are library code. Only the properties the code relies on are stated, as assumptions, in `Sound`, `Faithful` and `Consistent`.
  - `crypto.randomBytes` is a parameter. Its freshness is an explicit hypothesis (`Records.FreshIv`).
- Base64 decoding is strict, while Node's `Buffer.from(s, "base64")` also accepts unpadded or dirty input. The backend only ever decodes text it wrote itself.
- MongoDB persistence, Mongoose cast errors on malformed ids, sessions, `req.login` failures, and `express-session`/MongoStore are not modelled.
  - The collections are sequences in natural order.
  - A thrown error becomes the 500 reply.
- Accounts.Signup does not model the race between `findOne` and `create`. Only the unique index would catch it, and the index is not modelled.
- Logout (`backend/routes/auth.js:43-47`) only ends the session. The Google OAuth redirects (`backend/routes/auth.js:56-64`) are protocol plumbing.
- Dashboard.Hostname is a simplified WHATWG host parser. It does not model:
  - the trimming of leading and trailing C0 controls and spaces, and the removal of tabs and newlines anywhere in the URL;
  - extra slashes after the scheme;
  - percent-decoding, IDNA and Punycode labels;
  - IPv4 hosts (a last label that is a number) and IPv6 hosts;
  - the port range check.

  Its domains agree with the browser's on plain lower-case host names, which exclude names ending in a number and names with an `xn--` label (`Dashboard.PlainHostIsItsDomain`).
- Dashboard.Compare uses code-point order for `localeCompare`. Locale collation is not modelled.
- Dashboard.HandlePinToggle does not model a reply body that is not JSON, where `res.json()` throws.
- Records.Update takes `pinned` as absent or a boolean. A JSON `null` or a non-boolean value, which Mongoose would store as null, cast, or refuse with a cast error answered 500, is not modelled.
- Accounts.Login takes `email` and `password` as absent or strings. Non-string JSON values are not modelled.
- Records.Create takes `website`, `username` and `password` as absent or strings. A truthy non-string JSON value is not modelled: a number or boolean password makes `cipher.update` throw (500), a number or boolean website or username is cast to a string, and an object fails the cast (500).
- Records.Update takes the three fields as absent or strings, for the same reason and with the same unmodelled outcomes as Records.Create.
- Tokens.Issue takes the three fields as absent or strings. A truthy non-string JSON value would be filed and returned as it is; that is not modelled.
- Crypto.RoundTrip is stated for strings as sequences of Unicode scalar values. A JS string holding a lone surrogate such as `"\ud800"` is encoded as U+FFFD and so does not round-trip; lone surrogates are not modelled.
- Autofill.SetValue treats a prototype without its own `value` descriptor as an assignment that lands. What really happens depends on the prototype chain above it, which the model does not carry.
- Accounts.FindForGoogle assumes the driver sends the `undefined` email of a profile without one as `null`, which is its default.
- Dashboard.Group keeps keys in first-seen order. JavaScript would list integer-like keys first in `Object.entries`, and that reordering is not modelled.
- The rest of `client/src/pages/Dashboard.jsx` is not modelled:
  - `formatDate`, `handleEdit`, `handleDelete`'s confirm dialog, `loadPasswords` and `handleLogout` navigation;
  - the JSX rendering.
- Chrome APIs are reduced to their observable decisions:
  - the message listener;
  - tab creation as a `Launch` value;
  - `onUpdated` events as a sequence;
  - `executeScript` as the injection index.

  `extension/content.js` only relays the dashboard's event as a message. The popup's `autofill` targets the active tab and closes the window.
- Timers and `MutationObserver` delivery are reduced to ticks:
  - a poll happens once per tick;
  - mutations are delivered at the tick they happen;
  - a mutation at the very tick of the 15 000 ms timeout is not delivered.
- Attribute selectors compare values case-sensitively. HTML treats the `type` attribute's value case-insensitively, and that is not modelled.

## Findings

| source | as written | input that shows it | evidently intended | confidence | as-written member | corrected member |
|---|---|---|---|---|---|---|
| client/src/pages/Dashboard.jsx:71-76 | groups into `{}` and tests `!acc[d]`, so a domain that names an `Object.prototype` property reads as an existing group and `acc[d].push` throws | a credential whose website is `constructor` (or `__proto__`; mixed-case names such as `toString` are lower-cased into own keys first) | every credential lands in the group of its domain | not executed | Dashboard.ConstructorCrashesGrouping | Dashboard.GroupByDomain |
| client/src/pages/Dashboard.jsx:152 | `cred.website.startsWith("http")` takes any website beginning with the letters `http` as a full URL | the website `httpbin.org` is sent as the target URL `httpbin.org`, with no scheme | prefix `https://` unless the website already starts with `http://` or `https://`, as `getDomain` does | not executed | Dashboard.AsWrittenTargetLacksScheme | Dashboard.SeamlessAutofillIntended |
| backend/passportConfig.js:32-33 | a profile without an email puts `{ email: undefined }` in the `$or`, which matches every account without an email | two Google users whose profiles carry no email: the second is signed in to the first one's account | use the email branch only when the profile has an email | not executed; assumes the driver's default of sending `undefined` as `null` | Accounts.EmailLessProfilesShareAccount | Accounts.FindForGoogleIntended |

# Anonymous-Feedback: a Dafny model of its request logic

Anonymous-Feedback is a Next.js application over MongoDB. Users sign up
with a username, an e-mail and a password. They confirm the account with a
six-digit code. Then they get a public link where anyone can leave them an
anonymous message. A signed-in user can switch message acceptance on or off
and list their messages, newest first. A suggestion route asks a generative
model for question prompts, cleans them up and tops them up from a fixed
pool. A recruiter link signs a visitor straight into a demo account.

This project models the logic behind those routes and proves what it
promises:

- `Js` (`js.dfy`) states the JavaScript built-ins the code relies on:
  - `trim` and the `\s` class;
  - ASCII `toLowerCase`;
  - `includes`;
  - `String.prototype.split` over a separator table, with its round trip;
  - `String(n)`;
  - `Math.floor(Math.random() * n)`.
- `Messages` (`messages.dfy`) models the message record:
  - the content constraint;
  - the relative-time buckets;
  - recency;
  - preview;
  - word count.
- `Forms` (`forms.dfy`) writes the form schemas as predicates over
  characters. It proves what the password pattern really demands, and that
  the message form and the message schema disagree on surrounding
  whitespace.
- `Users` (`users.dfy`) models the user model:
  - the record, with its setters (`trim`, `lowercase`) and defaults;
  - the instance predicates and the virtual fields;
  - the collection as a class `UserStore`. Its methods are the update
    statics (`findByIdAndUpdate` with `$set`, `$push` and `$pull`) and
    `create`. Its invariant is the two unique indexes.
- `Sessions` (`session.dfy`) models what `getServerSession` yields, and the
  lookup of the session's user.
- `Suggest` (`suggest.dfy`) models `POST /api/suggest-messages`:
  - count clamping;
  - splitting and `normalizeQuestion`;
  - `uniqCaseInsensitive`, as a loop proved against a first-occurrence
    specification;
  - `filterExcluded`;
  - the single retry;
  - the in-place Fisher–Yates shuffle of the pool, on an array;
  - the final cut and the empty-list error.
- `SignUp` (`signup.dfy`) models `POST /api/sign-up`:
  - the username clash;
  - the verified or unverified e-mail;
  - the refresh or creation;
  - the verification code;
  - the reply chosen from the outcome of the e-mail, or from the text of a
    database error.
- `Recruiter` (`recruiter.dfy`) models `GET /recruiter`:
  - the key gates;
  - the demo identity;
  - create-or-reuse of the demo user;
  - the token claims and the session cookies.
- `AcceptMessage` (`accept_message.dfy`) models `POST` and `GET
  /api/accept-message`.
- `GetMessage` (`get_message.dfy`) models `GET /api/get-message`: its gates,
  and the in-place newest-first sort. The sort is an insertion sort on an
  array, proved equal to a stable functional sort. That function is proved
  ordered, a permutation and stable.

Several things outside the code become parameters of the operations:

- the generator's replies (`Generation`);
- the random draws (`picks`, `draw`);
- the clock (`now`);
- the bcrypt hash;
- the encoded session token;
- the result of sending e-mail;
- the configuration variables (`Option<string>`: `None` when unset).

There are two choices about the database:

- **Collection.** The collection is a sequence in insertion order. A
  `findOne` returns the first record that matches, and `_id`s come from a
  counter.
- **Query casting.** A query value is cast with its path's setters before it
  is compared. A `findOne({ username })` therefore compares the trimmed
  value, and a `findOne({ email })` the trimmed and lower-cased one.

## Model

| member | source | states |
|---|---|---|
| Js.Trim | src/app/api/suggest-messages/route-fixed.ts:53 | the result of `trim` neither starts nor ends with whitespace |
| Js.IsSpace | src/app/api/suggest-messages/route-fixed.ts:61 | the characters JavaScript's `\s` and `trim` treat as whitespace: tab to carriage return, space, no-break space, U+1680, U+2000 to U+200A, the line and paragraph separators, U+202F, U+205F, U+3000 and the byte-order mark |
| Js.TrimStart | src/app/api/suggest-messages/route-fixed.ts:53 | what remains is a suffix of the input that does not start with whitespace; `TrimStartDropsSpaces` makes every dropped character whitespace |
| Js.TrimEnd | src/app/api/suggest-messages/route-fixed.ts:53 | what remains is a prefix of the input that does not end with whitespace; `TrimEndDropsSpaces` makes every dropped character whitespace |
| Js.TrimIdempotent | src/app/api/suggest-messages/route-fixed.ts:61-63 | trimming a trimmed string changes nothing |
| Js.Lower | src/app/api/suggest-messages/route-fixed.ts:71 | `toLowerCase` keeps the length and lower-cases each ASCII capital, leaving every other character |
| Js.Contains | src/app/api/suggest-messages/route-fixed.ts:165 | `includes` holds exactly when some window of the text equals the searched string |
| Js.NonEmpty | src/app/api/suggest-messages/route-fixed.ts:168 | `filter(Boolean)` keeps exactly the non-empty strings |
| Js.Split | src/app/api/suggest-messages/route-fixed.ts:165 | `split` scans the separator's match table from the left, cutting a field at each match; `SplitRoundTrip` and `SplitFieldsAreMaximal` state what the fields are |
| Js.SplitRoundTrip | src/app/api/suggest-messages/route-fixed.ts:165 | the fields of a split, with the separators matched between them, spell the input again |
| Js.SplitJoinDoublePipe | src/app/api/suggest-messages/route-fixed.ts:165 | splitting a text on the double pipe and joining the fields with it again gives the text back |
| Js.SplitFieldsAreMaximal | src/app/api/suggest-messages/route-fixed.ts:165 | the fields are the maximal match-free windows: the first starts at 0 and the last ends at the end of the text, no match starts inside a field, every other field stops where a match starts, and the next field begins right after that match |
| Js.DoublePipeFieldsHaveNoPipePair | src/app/api/suggest-messages/route-fixed.ts:165 | no field of a split on the double pipe contains a double pipe |
| Js.MatchLength | src/app/api/suggest-messages/route-fixed.ts:165 | a match never runs past the end of the text; on `"||"` it is two characters exactly where the text has a double pipe; on `/\r?\n|•|\d+\.|- /` a newline or bullet is a one-character match and every match ends in a newline, a bullet, a dot or a space; on `/\s+/` a match starts exactly at whitespace |
| Js.MatchTable | src/app/api/suggest-messages/route-fixed.ts:165 | the match length at every index of the text, each within the text; `SplitFieldsAreMaximal` and `SplitRoundTrip` state the split it drives |
| Js.DecimalString | src/app/api/sign-up/route.ts:25-27 | `toString` of a non-negative integer is a non-empty string of digits with no leading zero |
| Js.DecimalRoundTrip | src/app/recruiter/route.ts:65-66 | reading back the decimal text of an `_id` gives the `_id` |
| Js.RandomBelow | src/app/api/suggest-messages/route-fixed.ts:201 | `Math.floor(Math.random() * n)` lies in [0, n) |
| Messages.StoredContent | src/models/Messages.model.ts:9-15 | the content is stored trimmed, and accepted exactly when the trimmed text has 10 to 300 characters; an empty one is the "required" error |
| Messages.AgeRanges | src/models/Messages.model.ts:80-96 | "Just now" exactly below 60 s; minutes, hours, days and months exactly on [60, 3600), [3600, 86400), [86400, 2592000) and above; each count is the floor quotient, at least 1 |
| Messages.PluralSuffix | src/models/Messages.model.ts:86-95 | the text ends in "s ago" exactly when the count is above 1, and always ends in " ago" |
| Messages.RelativeTimeShape | src/models/Messages.model.ts:78-97 | from a minute on, the text is the decimal count, a space, the unit, the optional "s" and " ago" |
| Messages.RelativeTime | src/models/Messages.model.ts:78-97 | `getRelativeTime` renders the bucket of the whole seconds elapsed; `AgeRanges`, `PluralSuffix` and `RelativeTimeShape` state the buckets and the text |
| Messages.ElapsedSeconds | src/models/Messages.model.ts:80 | the elapsed whole seconds are the floor of the milliseconds over 1000, negative ages included |
| Messages.AgeOf | src/models/Messages.model.ts:80-96 | the bucket of an age in whole seconds, with the floored count; `AgeRanges` states the bucket bounds and that each count is at least 1 |
| Messages.Render | src/models/Messages.model.ts:82-96 | the text of a bucket: "Just now", or the count, the unit, an "s" above one and " ago"; `PluralSuffix` and `RelativeTimeShape` state it |
| Messages.RecentIffUnderADay | src/models/Messages.model.ts:100-104 | `isRecent` (created after now minus 86,400,000 ms) holds exactly when the age shows as "Just now", minutes or hours |
| Messages.NewIffUnderAnHour | src/models/Messages.model.ts:115-119 | `isNew` (created after now minus 3,600,000 ms) holds exactly when the age shows as "Just now" or minutes |
| Messages.NewIsRecent | src/models/Messages.model.ts:100-119 | a new message is recent |
| Messages.IsRecent | src/models/Messages.model.ts:100-104 | created after the instant 86,400,000 ms before now; `RecentIffUnderADay` ties it to the age buckets |
| Messages.IsNew | src/models/Messages.model.ts:115-119 | created after the instant 3,600,000 ms before now; `NewIffUnderAnHour` ties it to the age buckets |
| Messages.Preview | src/models/Messages.model.ts:107-111 | content of at most 50 characters is returned as is; longer content gives its first 50 characters and "...", 53 in all |
| Messages.PreviewIdempotent | src/models/Messages.model.ts:107-111 | the preview of a preview is the same preview |
| Messages.WordCountIsWordStarts | src/models/Messages.model.ts:121-123 | the number of non-empty pieces after splitting on whitespace runs equals the number of places where a word starts |
| Messages.WordCount | src/models/Messages.model.ts:121-123 | the number of non-empty fields of the content split on whitespace runs; `WordCountIsWordStarts` equates it with the number of word starts |
| Forms.PasswordRuleMeaning | src/types/forms.ts:11-17 | the password rule holds exactly for 8 or more characters with no line break and at least one digit, one lower-case and one upper-case letter |
| Forms.NoSpecialCharacterNeeded | src/types/forms.ts:14-16 | a password of letters and digits only passes, although the message asks for a special character |
| Forms.TrimmedFormContentIsStored | src/types/forms.ts:25-30 | content the message form accepts, with no surrounding whitespace, is stored unchanged |
| Forms.FormAcceptsWhatSchemaRejects | src/types/forms.ts:25-30 | content of ten characters that is one letter and nine spaces passes the form and is rejected by the schema as too short |
| Forms.UsernameRule | src/types/forms.ts:5-9 | 2 to 20 characters, all letters, digits or underscores; `Users.FormUsernameIsStoredAsTyped` relates it to the schema |
| Forms.PasswordRule | src/types/forms.ts:11-17 | `min(6)` and the look-ahead pattern, written out over characters; `PasswordRuleMeaning` reduces it to length, line breaks and three character classes |
| Forms.ChangePasswordRule | src/types/forms.ts:47-55 | the same rule as the sign-up password |
| Forms.SignUpRule | src/types/forms.ts:4-18 | the username rule, the e-mail check (given) and the password rule; `SignUpRuleMeaning` writes out what it accepts |
| Forms.SignUpRuleMeaning | src/types/forms.ts:4-18 | the sign-up schema holds exactly for a well-formed e-mail, a username of 2 to 20 word characters, and a password of 8 or more characters with no line break and a digit, a lower-case and an upper-case letter |
| Forms.SignInRule | src/types/forms.ts:20-23 | identifier and password each have at least one character; `SignedUpCanSignIn` relates it to the sign-up schema |
| Forms.SignedUpCanSignIn | src/types/forms.ts:4-23 | every form the sign-up schema accepts passes the sign-in schema with its username and password, both non-empty |
| Forms.MessageRule | src/types/forms.ts:25-30 | 10 to 300 characters, counted untrimmed; `TrimmedFormContentIsStored` and `FormAcceptsWhatSchemaRejects` compare it with the schema |
| Forms.VerifyCodeRule | src/types/forms.ts:32-37 | exactly six characters, all decimal digits; `SignUp.VerifyCodeIsSixDigits` shows every issued code passes |
| Users.SetUsernameIdempotent | src/models/User.model.ts:10-18 | applying the username setter twice is applying it once |
| Users.FormUsernameIsStoredAsTyped | src/models/User.model.ts:10-18 | a username the form accepts passes the schema's rule and is stored exactly as typed |
| Users.SetEmailIdempotent | src/models/User.model.ts:19-29 | applying the e-mail setters (trim, then lowercase) twice is applying them once |
| Users.SetUsername | src/models/User.model.ts:13 | the username setter is `trim`; `SetUsernameIdempotent` and `FormUsernameIsStoredAsTyped` state its effect |
| Users.SetEmail | src/models/User.model.ts:22-24 | the e-mail setters, `trim` then `lowercase`; `SetEmailIdempotent` states its effect |
| Users.WithDefaults | src/models/User.model.ts:49-56 | a new record stores the set username and e-mail; an unset `isVerified` is false and an unset `isAcceptMessage` true; every other field is as given |
| Users.CodeValidityWindow | src/models/User.model.ts:133-139 | a code valid now was valid earlier, is invalid at its expiry, and no other code is valid |
| Users.IsVerificationCodeValid | src/models/User.model.ts:133-139 | the stored code equals the given one and its expiry is after `now`; `CodeValidityWindow` states the window |
| Users.CanReceiveMessages | src/models/User.model.ts:142-144 | verified and accepting messages; `SetAcceptanceIdempotent` and `Recruiter.DemoUserCanReceive` use it |
| Users.PublicProfile | src/models/User.model.ts:147-152 | the profile carries the username and the acceptance flag |
| Users.PublicProfileHidesTheRest | src/models/User.model.ts:147-152 | two users with the same name and flag have the same public profile |
| Users.ProfileUrl | src/models/User.model.ts:156-158 | the link is "/u/" followed by the username |
| Users.ProfileUrlInjective | src/models/User.model.ts:156-158 | different usernames give different links |
| Users.MessageCount | src/models/User.model.ts:160-162 | the `messageCount` virtual is 0 exactly when the user has no messages |
| Users.SetAcceptanceIdempotent | src/models/User.model.ts:103-109 | setting the flag twice is setting it once, nothing else changes, and `canReceiveMessages` then holds exactly when the user is verified and the flag is true |
| Users.SetVerified | src/models/User.model.ts:94-100 | the `{ isVerified }` update sets the flag and keeps every other field |
| Users.SetAcceptance | src/models/User.model.ts:103-109 | the `{ isAcceptMessage }` update sets the flag and keeps every other field |
| Users.PushMessage | src/models/User.model.ts:115 | `$push` appends to `messages`; `PushMessageAppends` states the result |
| Users.PushMessageAppends | src/models/User.model.ts:112-118 | `$push` makes the message the last one, grows `messageCount` by one and keeps the earlier messages and the other fields |
| Users.PullMessage | src/models/User.model.ts:124 | `$pull` keeps the messages whose `_id` differs; `WithoutIdMembers`, `WithoutIdAppend`, `WithoutAbsentId` and `WithoutIdCount` state the result |
| Users.WithoutIdMembers | src/models/User.model.ts:121-127 | `$pull` by `_id` keeps exactly the messages with another `_id` |
| Users.WithoutIdAppend | src/models/User.model.ts:121-127 | `$pull` works piece by piece, so the kept messages stay in order |
| Users.WithoutAbsentId | src/models/User.model.ts:121-127 | pulling an `_id` no message has leaves the list unchanged |
| Users.WithoutIdCount | src/models/User.model.ts:121-127 | the list shrinks by the number of messages that had that `_id` |
| Users.WithoutId | src/models/User.model.ts:121-127 | `$pull` by `_id` never lengthens the list; `WithoutIdMembers`, `WithoutIdAppend`, `WithoutAbsentId` and `WithoutIdCount` state the result |
| Users.FindFirst | src/models/User.model.ts:63-64 | the index found is the first record that matches; none found means no record matches |
| Users.FindOne | src/app/api/sign-up/route.ts:12-24 | `findOne` compares the value after the path's setters; nothing found means no record matches the cast value |
| Users.FindOneFindsStored | src/app/api/sign-up/route.ts:12-24 | a stored record is found again by any username or e-mail whose set form is its own |
| Users.Cast | src/models/User.model.ts:13-24 | a query value keeps its path, an `_id` is not changed, and a username or e-mail goes through its path's setters |
| Users.CastIdempotent | src/models/User.model.ts:13-24 | casting a cast value again changes nothing |
| Users.Lookup | src/app/api/get-message/route.ts:47 | `findById` returns a stored record with that `_id`, and nothing exactly when no record has it |
| Users.LookupIsUnique | src/models/User.model.ts:63-64 | with the unique indexes intact, a record is the only one with its `_id`, username and e-mail |
| Users.ReplaceKeepsConsistent | src/models/User.model.ts:63-64 | replacing a record by one with the same `_id`, username and e-mail keeps the indexes intact |
| Users.CreateOutcome | src/models/User.model.ts:10-29 | a create succeeds exactly when the set username passes its rule, the set e-mail is not empty and matches the schema's pattern, and neither index already holds the value. The errors come in that order: a validation error on `username`, then on `email`, then a duplicate key on `username_1` when the username is taken, then on `email_1` when only the e-mail is |
| Users.EmailPatternMatches | src/models/User.model.ts:25-28 | the `match` validator: the pattern, which has no anchors, matches some window of the set e-mail; the validator resets the `g` flag's `lastIndex` first |
| Users.IsEmailMatch | src/models/User.model.ts:26 | the pattern matches one window: a local part, `@`, then a domain |
| Users.IsLocalPart | src/models/User.model.ts:26 | runs of `` [a-z0-9!#$%&'*+/=?^_`{\|}~-] `` joined by single dots |
| Users.IsLabel | src/models/User.model.ts:26 | a letter or digit, or a run of letters, digits and hyphens that starts and ends with a letter or digit |
| Users.HasAddressCore | src/models/User.model.ts:25-28 | the smallest text the pattern matches occurs somewhere; `EmailPatternCore` relates it to the pattern |
| Users.IsDomain | src/models/User.model.ts:26 | the domain part of the pattern: a label and a dot, then the last label or more of the same; `DomainStartsWithAlnum` states its first character |
| Users.DomainStartsWithAlnum | src/models/User.model.ts:26 | a domain has at least three characters and starts with a letter or digit |
| Users.MatchHasCore | src/models/User.model.ts:25-28 | every match of the pattern holds an atext character, `@`, a label, a dot and a letter or digit |
| Users.CoreIsMatch | src/models/User.model.ts:25-28 | that core, starting one character before the `@`, is a match of the whole pattern |
| Users.EmailPatternCore | src/models/User.model.ts:25-28 | the unanchored pattern matches an address exactly when the address holds the core |
| Users.NoAtFailsPattern | src/models/User.model.ts:25-28 | an address with no `@` fails the pattern |
| Users.PatternIgnoresSurroundings | src/models/User.model.ts:25-28 | the pattern is not anchored: text before and after a matching address keeps it matching |
| Users.ShiftedMatch | src/models/User.model.ts:25-28 | a match of an address is a match, at the shifted place, of the address with text around it |
| Users.CreateRejectsAddressWithoutAt | src/models/User.model.ts:19-29 | once the username passes, an e-mail with no `@` (such as "abc") is refused on the `email` path, whatever the collection holds |
| Users.CreateKeepsConsistent | src/models/User.model.ts:63-64 | a record that passes the checks keeps both unique indexes and the `_id` counter intact |
| Users.ErrorText | src/app/api/sign-up/route.ts:104-138 | the markers the sign-up handler tests for: "E11000", the index name, and the validation prefix; a simplified text, see Left out |
| Users.UserStore.UpdateVerificationStatus | src/models/User.model.ts:94-100 | only the record with that `_id` changes, and only its `isVerified`; the new record is returned, or nothing for an unknown `_id` |
| Users.UserStore.UpdateMessageAcceptance | src/models/User.model.ts:103-109 | only the record with that `_id` changes, and only its `isAcceptMessage`; the new record is returned, or nothing for an unknown `_id` |
| Users.UserStore.UpdateFirstAcceptance | src/app/api/accept-message/route.ts:26-34 | with the empty filter, the first record takes the flag and is returned; an empty collection changes nothing |
| Users.UserStore.AddMessage | src/models/User.model.ts:112-118 | an invalid content changes nothing and is a validation error; otherwise the trimmed message is appended to that user's messages |
| Users.UserStore.RemoveMessage | src/models/User.model.ts:121-127 | that user's messages lose exactly those with the given `_id`; nothing else changes |
| Users.UserStore.Create | src/models/User.model.ts:10-64 | the outcome is `CreateOutcome`; a success appends the record and advances the counter, an error changes nothing; the indexes stay intact |
| Sessions.SessionUser | src/app/api/accept-message/route.ts:77-78 | the session's user is found exactly when the session carries an `_id` that a record has |
| Suggest.ClampCount | src/app/api/suggest-messages/route-fixed.ts:120 | the count is always in [1, 10], 3 when absent, and the requested value when it is in range |
| Suggest.ExcludeList | src/app/api/suggest-messages/route-fixed.ts:121 | an array `exclude` is used as given; anything else is the empty list |
| Suggest.IsConfigured | src/app/api/suggest-messages/route-fixed.ts:95 | the API key counts as set only when present and not empty, the falsy test of `!process.env[...]` |
| Suggest.StripListMarkers | src/app/api/suggest-messages/route-fixed.ts:53 | only leading list markers and whitespace are removed, and the result does not start with one |
| Suggest.Collapse | src/app/api/suggest-messages/route-fixed.ts:61 | after `replace(/\s+/g, " ")` every whitespace character is a single space, never next to another, and the first character keeps its class |
| Suggest.CollapseKeepsText | src/app/api/suggest-messages/route-fixed.ts:61 | the characters other than whitespace survive, all of them and in order |
| Suggest.CollapseOfSingleSpaced | src/app/api/suggest-messages/route-fixed.ts:61 | a text already single-spaced is left as it is |
| Suggest.CollapseKeepsRuns | src/app/api/suggest-messages/route-fixed.ts:61 | `replace(/\s+/g, " ")` keeps the number of maximal whitespace runs, so each run becomes exactly one space |
| Suggest.RunBetweenWords | src/app/api/suggest-messages/route-fixed.ts:61 | a whitespace run between two words is one run while the words written together have none, so `"a  b"` cannot collapse to `"ab"` |
| Suggest.StripTrailingPipes | src/app/api/suggest-messages/route-fixed.ts:63 | only trailing pipes are removed, and the result does not end with one |
| Suggest.NormalizeShape | src/app/api/suggest-messages/route-fixed.ts:51-65 | a normalised question has no surrounding whitespace and no two adjacent whitespace characters |
| Suggest.Normalize | src/app/api/suggest-messages/route-fixed.ts:51-65 | `normalizeQuestion`: list markers stripped, trim, one pair of quotes removed, whitespace collapsed, trailing pipes stripped, trimmed between steps; `NormalizeShape` and `NormalizeOfClean` state its effect |
| Suggest.NormalizeOfClean | src/app/api/suggest-messages/route-fixed.ts:51-65 | a trimmed, single-spaced question that starts with no list marker or quote and ends with no pipe comes back unchanged |
| Suggest.UnquoteStripsOnePair | src/app/api/suggest-messages/route-fixed.ts:54-59 | one pair of matching double or single quotes is removed |
| Suggest.UnquoteKeepsUnquoted | src/app/api/suggest-messages/route-fixed.ts:54-59 | text that does not start with a quote passes unchanged |
| Suggest.Unquote | src/app/api/suggest-messages/route-fixed.ts:54-59 | the text changes exactly when it starts and ends with the same quote; it then loses only its first and last character, and a lone quote becomes empty |
| Suggest.SeparatorFor | src/app/api/suggest-messages/route-fixed.ts:165 | the text is split on the double pipe exactly when it contains one |
| Suggest.CandidatesShape | src/app/api/suggest-messages/route-fixed.ts:164-168 | every candidate is non-empty, normalised and the image of a field of the split |
| Suggest.Candidates | src/app/api/suggest-messages/route-fixed.ts:164-168 | split on the chosen separator, each field normalised, the empty ones dropped; `CandidatesShape` and `ExampleCandidates` state the result |
| Suggest.DoublePipeFields | src/app/api/suggest-messages/route-fixed.ts:165 | with a double pipe in the text, the fields rejoined with double pipes give the text back, and no field holds a double pipe |
| Suggest.DedupIsFirstOccurrences | src/app/api/suggest-messages/route-fixed.ts:67-78 | the result is the subsequence of the first item for each lower-cased key |
| Suggest.DedupKeys | src/app/api/suggest-messages/route-fixed.ts:67-78 | the result has the same keys as the input, and only input items |
| Suggest.DedupNoDupKeys | src/app/api/suggest-messages/route-fixed.ts:67-78 | no two results are equal after lower-casing |
| Suggest.DedupOfDistinct | src/app/api/suggest-messages/route-fixed.ts:67-78 | a list without such duplicates comes through unchanged |
| Suggest.DedupExtends | src/app/api/suggest-messages/route-fixed.ts:188 | de-duplicating a longer list keeps the shorter list's result as its prefix |
| Suggest.Dedup | src/app/api/suggest-messages/route-fixed.ts:67-78 | the first item of each lower-cased key, in order; `DedupIsFirstOccurrences` equates it with an independent selection |
| Suggest.UniqCaseInsensitive | src/app/api/suggest-messages/route-fixed.ts:67-78 | the loop with its set of seen keys returns exactly the first occurrences |
| Suggest.WithoutMembers | src/app/api/suggest-messages/route-fixed.ts:82-83 | exactly the items whose lower-cased, trimmed form is not an excluded key are kept |
| Suggest.ExcludeKeyIsCanonical | src/app/api/suggest-messages/route-fixed.ts:82-83 | the key `toLowerCase().trim()` has no capital and no surrounding whitespace, so it is its own key |
| Suggest.Without | src/app/api/suggest-messages/route-fixed.ts:83 | `filter` keeps at most the items it is given; `WithoutMembers` states exactly which, and `WithoutAppend` that their order is kept |
| Suggest.WithoutAppend | src/app/api/suggest-messages/route-fixed.ts:83 | filtering works piece by piece, so the survivors keep their order |
| Suggest.WithoutNothing | src/app/api/suggest-messages/route-fixed.ts:81 | filtering by no keys keeps everything |
| Suggest.FilterExcludedIsWithout | src/app/api/suggest-messages/route-fixed.ts:80-84 | the shortcut for an empty exclusion list gives the same result as the filter |
| Suggest.WithoutKeepsNoDupKeys | src/app/api/suggest-messages/route-fixed.ts:170-171 | filtering keeps a list free of case-insensitive duplicates |
| Suggest.WithoutNoneExcluded | src/app/api/suggest-messages/route-fixed.ts:83 | a list none of whose items is excluded comes through unchanged |
| Suggest.FilterExcluded | src/app/api/suggest-messages/route-fixed.ts:80-84 | the items themselves for an empty list, else the items whose trimmed lower-cased form is not excluded; `FilterExcludedIsWithout` and `WithoutMembers` state it |
| Suggest.RemainingMembers | src/app/api/suggest-messages/route-fixed.ts:194-198 | the pool entries kept are exactly those not in the exclusion list (case-sensitively) and not already suggested (ignoring case) |
| Suggest.Remaining | src/app/api/suggest-messages/route-fixed.ts:194-198 | the pool entries left after the exclusion list and the suggestions so far; `RemainingMembers` states exactly which |
| Suggest.FallbackPoolShape | src/app/api/suggest-messages/route-fixed.ts:18-49 | the fallback pool holds thirty questions, none empty |
| Suggest.ShuffledIsPermutation | src/app/api/suggest-messages/route-fixed.ts:200-205 | whatever the draws, the shuffle is a permutation of its input |
| Suggest.Shuffled | src/app/api/suggest-messages/route-fixed.ts:200-205 | the Fisher–Yates passes from the last index down to 1 rearrange the list, keeping its length and each entry as often |
| Suggest.Swap | src/app/api/suggest-messages/route-fixed.ts:202-204 | the swap keeps the length; `SwapIsPermutation` states that each entry is kept as often |
| Suggest.Shuffle | src/app/api/suggest-messages/route-fixed.ts:200-205 | the in-place loop leaves the array as the Fisher–Yates passes from the last index down to 1 |
| Suggest.Take | src/app/api/suggest-messages/route-fixed.ts:213 | `slice(0, k)` is the prefix of length min(k, length) |
| Suggest.GenerationRound | src/app/api/suggest-messages/route-fixed.ts:164-171 | one round is the split and normalised candidates, appended to the list so far, de-duplicated and filtered |
| Suggest.Round | src/app/api/suggest-messages/route-fixed.ts:164-171 | the list after one generation, as a function; `GenerationRound` computes it, `RoundShape` and `RoundKeepsPrevious` state what it keeps |
| Suggest.Backfill | src/app/api/suggest-messages/route-fixed.ts:193-218 | fill from the shuffled remaining pool when short, cut to the count, and fail on an empty list |
| Suggest.Finish | src/app/api/suggest-messages/route-fixed.ts:193-218 | the fill, cut and empty check as a function; `Backfill` computes it, `FinishLength`, `FinishContents` and `FinishFailsOnlyWhenNothingIsLeft` state what it returns |
| Suggest.SuggestMessages | src/app/api/suggest-messages/route-fixed.ts:90-245 | no key gives 500 and no call; a failed generation gives 500 with its message; a second call happens exactly when the first round is short |
| Suggest.RoundShape | src/app/api/suggest-messages/route-fixed.ts:170-171 | after a round no two suggestions agree ignoring case, none is excluded, and each came from the earlier list or the new text |
| Suggest.RoundKeepsPrevious | src/app/api/suggest-messages/route-fixed.ts:188-189 | a de-duplicated, filtered list stays in order at the front of the next round |
| Suggest.SecondRoundKeepsFirst | src/app/api/suggest-messages/route-fixed.ts:188-189 | the second round keeps the first round's list, in order, at its front |
| Suggest.FinishLength | src/app/api/suggest-messages/route-fixed.ts:206-213 | a successful reply has between 1 and `count` suggestions, as many as the sources allow |
| Suggest.FinishContents | src/app/api/suggest-messages/route-fixed.ts:206-209 | the generated suggestions come first in order; every entry after them is a pool entry that is neither excluded nor already suggested |
| Suggest.FinishFailsOnlyWhenNothingIsLeft | src/app/api/suggest-messages/route-fixed.ts:217-218 | the reply is the 500 error exactly when nothing was generated and every pool entry is excluded |
| Suggest.ExampleSplit | src/app/api/suggest-messages/route-fixed.ts:165 | the text A, double pipe, B, double pipe, A splits into "A", "B", "A" |
| Suggest.DedupFilterExample | src/app/api/suggest-messages/route-fixed.ts:170-171 | of the pieces a, b, a with b excluded, only a remains |
| Suggest.ExampleCandidates | src/app/api/suggest-messages/route-fixed.ts:164-168 | the candidates of A, double pipe, B, double pipe, A are "A", "B", "A" |
| Suggest.ExampleRound | src/app/api/suggest-messages/route-fixed.ts:164-171 | from that text, with "b" excluded and nothing before, the round yields exactly ["A"] |
| SignUp.CodeNumber | src/app/api/sign-up/route.ts:25-27 | the verification code number lies in [100000, 999999] |
| SignUp.VerifyCodeIsSixDigits | src/app/api/sign-up/route.ts:25-27 | the code is six digits that the verify form accepts, and reads back as the drawn number |
| SignUp.VerifyCode | src/app/api/sign-up/route.ts:25-27 | the code is the decimal text of `CodeNumber`; `VerifyCodeIsSixDigits` states that it is six digits and reads back as the drawn number |
| SignUp.Registered | src/app/api/sign-up/route.ts:69-93 | the reply is 201 with success, and carries an `emailError` exactly when sending failed |
| SignUp.ErrorReply | src/app/api/sign-up/route.ts:104-138 | an error gives 400 exactly when its text holds the duplicate-key marker and "username_1" or "email_1", and 500 otherwise |
| SignUp.DuplicateKeyIsClientError | src/app/api/sign-up/route.ts:104-128 | a duplicate key on the username or e-mail index is answered with 400 |
| SignUp.ValidationErrorIsServerError | src/app/api/sign-up/route.ts:130-138 | a validation error is answered with 500 |
| SignUp.SchemaFailuresAreServerErrors | src/app/api/sign-up/route.ts:130-138 | both validation errors a create can raise are answered with 500 |
| SignUp.RefreshChangesOnlyCredentials | src/app/api/sign-up/route.ts:36-41 | the refresh sets the password, the code and the expiry, and nothing else |
| SignUp.Refresh | src/app/api/sign-up/route.ts:35-40 | the fields the handler overwrites on an unverified user; `RefreshChangesOnlyCredentials` states that only the password, the code and its expiry change |
| SignUp.Fresh | src/app/api/sign-up/route.ts:47-56 | the new record: the given name, e-mail, hash, code and expiry, not verified, accepting messages, no messages; `IssuedCodeLastsAnHour` states the stored result |
| SignUp.IssuedCodeLastsAnHour | src/app/api/sign-up/route.ts:36-57 | on a refreshed or a new user the issued code is valid exactly during the hour after `now`; the new user is unverified, accepts messages, has no messages and cannot yet receive them |
| SignUp.CreateFailsOnlyOnValidation | src/app/api/sign-up/route.ts:43-57 | once neither lookup found a record, a create can fail only validating the username or the e-mail (empty, or failing the pattern) |
| SignUp.Register | src/app/api/sign-up/route.ts:6-140 | a taken username gives 400, and a verified e-mail 500, both with the store unchanged; an unverified e-mail refreshes only that record; otherwise one user is created, or the error's reply is sent with the store unchanged |
| Recruiter.Gate | src/app/recruiter/route.ts:16-30 | an empty access key gives 501; a key that differs gives 403; only the configured key passes |
| Recruiter.OrEmpty | src/app/recruiter/route.ts:16-17 | `x || ""` is empty exactly when the value is missing or empty, and is the value otherwise |
| Recruiter.OnlyTheKeyOpens | src/app/recruiter/route.ts:16-30 | passing the gates needs a present, non-empty key equal to the configured one |
| Recruiter.TrimmedOr | src/app/recruiter/route.ts:34-36 | the trimmed configured value, or the fallback when it is missing or blank |
| Recruiter.TrimmedOrIsTrimmed | src/app/recruiter/route.ts:34-36 | the demo name and e-mail are never empty and never carry surrounding whitespace |
| Recruiter.DefaultsAreTrimmed | src/app/recruiter/route.ts:34-36 | "demo" and "demo@example.com" are non-empty and trimmed |
| Recruiter.DefaultEmailPassesPattern | src/app/recruiter/route.ts:36 | "demo@example.com" is stored as written and passes the schema's e-mail pattern |
| Recruiter.DemoUser | src/app/recruiter/route.ts:44-53 | the demo record is verified, accepts messages, has no messages, code "000000" and an expiry one hour on |
| Recruiter.DemoUserCanReceive | src/app/recruiter/route.ts:44-53 | a newly created demo user can receive messages |
| Recruiter.Payload | src/app/recruiter/route.ts:62-70 | the claims are always verified, carry the user's flag, names and e-mail, and `sub` and `_id` both read back as the user's `_id` |
| Recruiter.IdText | src/app/recruiter/route.ts:65-66 | `String(user._id)` is all digits and reads back as the `_id` |
| Recruiter.SessionCookies | src/app/recruiter/route.ts:88-101 | two cookies, one plain and one secure, both http-only on "/", carrying the token for 2,592,000 s |
| Recruiter.SessionMaxAgeIsThirtyDays | src/app/recruiter/route.ts:82 | thirty days are 2,592,000 seconds |
| Recruiter.Finish | src/app/recruiter/route.ts:72-103 | a missing secret gives 500; otherwise a redirect whose path is "/dashboard", with the user's claims and both cookies; the origin and the redirect status are not modelled |
| Recruiter.RecruiterLogin | src/app/recruiter/route.ts:13-114 | a closed gate leaves the store unchanged; an existing demo user is reused unchanged; otherwise exactly one is created, or the error's text is answered with 500 |
| AcceptMessage.Updated | src/app/api/accept-message/route.ts:44-51 | the 200 reply carries the stored flag |
| AcceptMessage.AcceptanceTarget | src/app/api/accept-message/route.ts:22-34 | a present `_id` selects the record with that `_id`, if any; a missing `_id` (the filter `{ _id: undefined }`) selects the first record, if any |
| AcceptMessage.AcceptanceSet | src/app/api/accept-message/route.ts:26-34 | the record `findByIdAndUpdate` selects gets the body's flag, every other field of it stays, and every other record is unchanged; nothing selected changes nothing |
| AcceptMessage.AcceptanceSetIdempotent | src/app/api/accept-message/route.ts:26-34 | posting the same value twice leaves the store as posting it once |
| AcceptMessage.SetAcceptMessages | src/app/api/accept-message/route.ts:9-62 | no session gives 401 and no change; otherwise the selected record takes the flag, with 200 and the value, or 401 when nothing was selected |
| AcceptMessage.GetAcceptMessages | src/app/api/accept-message/route.ts:64-105 | no session gives 401; a missing user 404; otherwise 200 with the stored flag |
| AcceptMessage.GetAfterSet | src/app/api/accept-message/route.ts:26-95 | what `POST` stored is what `GET` then reads |
| AcceptMessage.MissingIdSetsFirstRecord | src/app/api/accept-message/route.ts:22-34 | a session without `_id` makes `POST` set the first record's flag, while `GET` answers 404 for the same session |
| GetMessage.NewestFirstIsPermutation | src/app/api/get-message/route.ts:65-69 | the sorted messages are the stored ones, each as often |
| GetMessage.NewestFirstIsOrdered | src/app/api/get-message/route.ts:65-69 | the sorted messages are in non-increasing `createdAt` order |
| GetMessage.NewestFirstIsStable | src/app/api/get-message/route.ts:66-69 | messages with the same time keep their stored order |
| GetMessage.NewestFirstOfOrdered | src/app/api/get-message/route.ts:66-69 | messages already newest first are left as they are |
| GetMessage.InsertIsPermutation | src/app/api/get-message/route.ts:66-69 | placing a message adds exactly that message |
| GetMessage.InsertKeepsOrder | src/app/api/get-message/route.ts:66-69 | placing a message into a newest-first list keeps it newest first |
| GetMessage.InsertIsStable | src/app/api/get-message/route.ts:66-69 | messages with the same time keep their relative order, and a new one of that time goes after them |
| GetMessage.Insert | src/app/api/get-message/route.ts:66-69 | one step of the stable sort, one message longer; `InsertIsPermutation`, `InsertKeepsOrder` and `InsertIsStable` state its effect |
| GetMessage.NewestFirst | src/app/api/get-message/route.ts:66-69 | the stable newest-first order, built by insertion; the four lemmas above state it is ordered, a permutation, stable, and the identity on ordered input |
| GetMessage.InsertAt | src/app/api/get-message/route.ts:66-69 | one pass places the next message into the sorted prefix and leaves the rest of the array alone |
| GetMessage.MakeRoom | src/app/api/get-message/route.ts:66-69 | the messages before `i` that are older than `m`, and only those, move one place right; the place left free follows a message at least as new as `m` |
| GetMessage.SortNewestFirst | src/app/api/get-message/route.ts:66-69 | the in-place sort leaves the array equal to the stable newest-first order of its old contents |
| GetMessage.GetMessages | src/app/api/get-message/route.ts:10-90 | no session gives 401; no `_id` 400; an unknown user 404; otherwise the user's messages, newest first |

## Left out

- **The generator.** Calls to the generative model, the prompt text and the `randomInt` seeds are left out. The replies become the inputs `first` and `second`.
- **Random draws.** `Math.random` becomes inputs: the shuffle's `picks`, each constrained to [0, i], and the sign-up's `draw`, a real in [0, 1).
- **Library calls.** bcrypt hashing (cost factors 10 and 9) and `next-auth`'s `encode` become the opaque inputs `passwordHash` and `token`. Setting cookies on the response is reduced to the list of cookies.
- **E-mail.** Sending the verification e-mail is network I/O. Its outcome is the input `MailOutcome`.
- **The database.** The connection, `await` and the gap between a `findOne` and the following `save` are left out. So are concurrent requests that could race between them.
- **Other statics.** `findByUsernameOrEmail`, `findVerifiedByUsername`, `findByDateRange`, `findRecent` and `searchByContent` are persistence queries that no modelled route calls.
- **E-mail validation.** zod's `.email()` is defined by the validation library. Its outcome is the parameter `emailWellFormed` of `Forms.SignUpRule`. The user schema's own pattern (src/models/User.model.ts:25-28) is modelled: `Users.EmailPatternMatches` runs it unanchored on the set e-mail, and `Users.CreateOutcome` refuses an address that fails it with a validation error on `email`. Sign-up then answers 500 "Error registering user. Please try again.", and the recruiter route answers 500 with the error's text.
- **Password validation on save.** The schema's password validators run on the stored bcrypt hash and are left out. So is `verifyCode`'s `length` option, which Mongoose does not enforce on strings. A save of a refreshed record is taken to succeed.
- **Locale dates.** `getFormattedDate` depends on locale data.
- **Unicode case.** `toLowerCase` is modelled for ASCII letters only. Strings are sequences of characters, with no UTF-16 surrogate pairs.
- **String lengths.** Every length bound is counted in characters, while the program counts UTF-16 code units. This covers content of 10 to 300, the 50-character preview, a username of 2 to 20 and a password of 8 or more. Text with characters outside the Basic Multilingual Plane is therefore judged differently. For example, 151 emoji pass the model's 300 limit, but they are 302 code units and the schema rejects them. Likewise `substring(0, 50)` in the preview can split a surrogate pair, which the model cannot express.
- **The message time.** A message's `createdAt` is taken as an integer number of milliseconds.
- **Loose request bodies.** Non-string `exclude` entries and a non-numeric `count` are left out. `count` is an optional integer, and an `exclude` that is not an array is absent. A JSON `null` body, for which reading `body.count` throws and the suggestion route answers 500, is left out too.
- AcceptMessage.SetAcceptMessages: a session without `_id` reaches `findByIdAndUpdate(undefined, …)`. In Mongoose the filter `{ _id: undefined }` matches any document; the model takes the first record in insertion order, which is the collection's natural order when nothing has been moved. Which record a real server picks is not modelled.
- **The accept-message body.** `POST /api/accept-message` reads its body with `request.json()` outside its `try`, so a missing or non-JSON body is an unhandled error. A non-boolean or missing `acceptMessages` would be cast or stored by the driver. `AcceptMessage.SetAcceptMessages` takes `acceptMessages` as a `bool` and models neither case.
- **Timestamps.** The user schema sets `timestamps: true`, so every create and `findByIdAndUpdate` also writes `createdAt` and `updatedAt`. `User` has no timestamp fields, and the `UserStore` methods say nothing about them.
- **Development stack.** The `error.stack` field that the suggestion route adds in development is left out.
- **Malformed ids.** A session `_id` that is not a valid identifier would raise a cast error, answered with 500. It is left out: `_id`s are natural numbers, written in decimal in the token claims.
- **Missing messages field.** A stored user without a `messages` field, which the listing reads as `[]`, is modelled as a user with no messages.
- Users.ErrorText: the error text is a stand-in that keeps only what the handlers test for: the "E11000" marker with the index name, or the validation prefix with the path. The driver's real duplicate-key text also names the database and the duplicate value, and Mongoose's validation text names each failing path with its message. `Recruiter.RecruiterLogin` answers 500 with this text, so that reply's message is not the program's exact text.
- Users.CreateOutcome: a validation error names only the first failing path (username before e-mail). Mongoose lists every failing path in the message.
- SignUp.Register: the three body fields are taken as strings; a body that is not JSON, or one with a field missing, is not modelled. A non-JSON body reaches the `catch` at src/app/api/sign-up/route.ts:94-139 and is answered with 500 "Error registering user. Please try again.". A missing field makes its filter `{ path: undefined }`, which Mongoose treats as the empty filter (as for `AcceptMessage.SetAcceptMessages`), so the outcome depends on the store. With `username` missing, the lookup at lines 12-14 finds the first record of a non-empty store and the reply is 400 "Username is already taken". With `email` missing, the lookup at lines 22-24 finds the first record: a verified one gives 500 "The user already exists", and an unverified one has its password, code and expiry overwritten at lines 35-41, with 201. With `password` missing, only a request whose username lookup misses and whose e-mail lookup misses or finds an unverified record reaches `bcrypt.hash(undefined, …)`, which throws, and the `catch` answers 500. On an empty store, a missing username or e-mail instead ends in a validation error on the create, answered with 500.
- SignUp.Register: the new user's expiry is `now + 3600000`. The code uses `setHours(getHours() + 1)`, which differs only across a daylight-saving change.
- Suggest.SuggestMessages: a failed generation is answered with 500 and the error's message, as the `catch` at src/app/api/suggest-messages/route-fixed.ts:233-244 does; no pool entries are substituted.

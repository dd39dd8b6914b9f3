# Notes API: a Dafny model

This project models the server core of a small notes service built on ASP.NET
Core. It has two controllers.

- `api/auth` registers users and signs them in, through ASP.NET Identity. Both
  answer with a bearer token.
- `api/notes` lets the holder of a token list, read, create, update and delete
  their own notes. The caller is the value of the token's `NameIdentifier` claim.

The model has four modules:

- `Base` (`base.dfy`) holds the .NET behaviour both controllers rely on:
  - `string.IsNullOrWhiteSpace` with `char.IsWhiteSpace`, which is what
    `[Required]` rejects;
  - `string.Length` in UTF-16 code units, which is what `[StringLength]` counts;
  - ordinal `string.Contains`;
  - the `Select` that turns validation messages into `{ field, message }` entries.
- `NoteModel` (`note.dfy`) is the `Note` entity and its validation attributes.
- `NotesController` (`notes_controller.dfy`) is the note store.
  - The two queries are functions over the table.
  - The three actions that write are methods of the class `NoteTable`. Its
    fields are the rows, in insertion order, and the next identity value.
  - Its invariant is that ids are unique and below the next identity value.
- `AuthController` (`auth_controller.dfy`) covers registration and sign-in.
  - The class `UserManager` holds the users table.
  - The class `AuthController` holds the controller.
  - The parts of Identity the source does not contain are the parameters in
    `IdentityServices`: the normaliser, password validators, other user
    validators, password hasher and its check, and the sign-in gates.
  - The duplicate-user-name check and the look-ups by name and by e-mail are
    modelled concretely.
  - A token is its issuer, audience, claims and expiry instant.

The request clock and the GUIDs of a new user and of a token are parameters:
`now`, `newId` and `jti`.

In these ways the code behaves differently from what a reader might expect:

- The token's subject claim is the user's e-mail, not the user id. The id travels
  in a separate `NameIdentifier` claim.
- The token carries no issued-at claim.
- A taken e-mail is reported with Identity's code `DuplicateUserName`. It lands
  under the empty field, not "email".
- A password mismatch lands under the empty field, not "confirmPassword".
- An invalid e-mail format lands under the empty field, not "email".
- PutNote runs no validation of its own. A blank title is stored as sent. A null
  title or description reaches the NOT NULL columns that `[Required]` gives the
  table: the save throws, nothing catches it, and the answer is a 500.
- There is no Conflict outcome. A concurrency failure is either NotFound or a
  rethrown exception, and is left out.

## Model

| member | source | states |
|---|---|---|
| NoteModel.ValidationErrors | NotesApi/Models/Note.cs:9-14 | each of the three messages is reported exactly when its attribute fails: a null or blank title, a title over 100 UTF-16 code units, a null or blank description; nothing else is reported |
| NoteModel.ValidIff | NotesApi/Models/Note.cs:9-14 | a note is valid if and only if its title is present, not blank and at most 100 code units, and its description is present and not blank |
| NoteModel.TitleLengthBoundary | NotesApi/Models/Note.cs:10 | a title of exactly 100 code units passes the length rule; one of 101 fails it |
| NoteModel.MissingTitle | NotesApi/Models/Note.cs:9-11 | a null title is reported as required, not as too long, and makes the note invalid |
| NoteModel.DescriptionRule | NotesApi/Models/Note.cs:13-14 | a null description is reported; a present, non-blank one passes whatever its length |
| NoteModel.ValidityIgnoresMetadata | NotesApi/Models/Note.cs:7-17 | the validation outcome depends only on the title and description, not on id, timestamp or owner |
| NotesController.FieldOfNoteMessage | NotesApi/Controllers/NotesController.cs:77-78 | "title" exactly for a message containing "Title"; "description" exactly for one containing "Description" but not "Title"; "" for the rest |
| Base.FieldErrors | NotesApi/Controllers/NotesController.cs:74-81 | one response entry per message, in order, each pairing the message with the field chosen for it |
| NotesController.NoteMessagesMapToTheirField | NotesApi/Controllers/NotesController.cs:76-80 | "Title is required" and the length message land under "title"; "Description is required" lands under "description" |
| NotesController.TitleBoundaryResponse | NotesApi/Controllers/NotesController.cs:72-87 | a 101-unit title yields the entry ("title", length message); a 100-unit title yields no length entry |
| NotesController.PostNoteErrorFields | NotesApi/Controllers/NotesController.cs:72-87 | every entry of a rejection carries a failed message, under "title" exactly for the two title messages and under "description" exactly for the description message |
| NotesController.Where | NotesApi/Controllers/NotesController.cs:32 | the result holds each note that satisfies the criterion as often as the input does, and no other note |
| NotesController.OrderByNewest | NotesApi/Controllers/NotesController.cs:33 | the result is a permutation of the input |
| NotesController.OrderByNewestSorts | NotesApi/Controllers/NotesController.cs:33 | the result is ordered by creation time, most recent first |
| NotesController.InsertByDateKeepsOrder | NotesApi/Controllers/NotesController.cs:33 | inserting into a sorted sequence keeps it sorted |
| NotesController.WhereKeepsOrder | NotesApi/Controllers/NotesController.cs:37-47 | filtering a sorted sequence keeps it sorted |
| NotesController.ApplyFilters | NotesApi/Controllers/NotesController.cs:35-48 | the result holds exactly the notes passing every given filter (a non-empty search occurring in the title, the inclusive date bounds), each as often as in the input |
| NotesController.ApplyFiltersKeepOrder | NotesApi/Controllers/NotesController.cs:35-48 | the filters applied after the ordering keep it |
| NotesController.WhereOrderByNewest | NotesApi/Controllers/NotesController.cs:31-48 | filtering commutes with the ordering, ties included |
| NotesController.ApplyFiltersOrderByNewest | NotesApi/Controllers/NotesController.cs:31-48 | all the optional filters together commute with the ordering |
| NotesController.GetNotes | NotesApi/Controllers/NotesController.cs:27-51 | the caller's notes that pass the filters, newest first, exactly: each as often as in the table, and no other note |
| NotesController.GetNotesOwnerOnly | NotesApi/Controllers/NotesController.cs:29-32 | no combination of search and dates returns a note of another owner or a note absent from the table |
| NotesController.GetNotesFilterThenOrder | NotesApi/Controllers/NotesController.cs:31-48 | ordering first and filtering afterwards, as written, equals filtering the caller's notes and then ordering them |
| NotesController.FindOwned | NotesApi/Controllers/NotesController.cs:58 | the position found is the first note with this id owned by the caller; none is found exactly when no such note exists |
| NotesController.GetNote | NotesApi/Controllers/NotesController.cs:55-66 | a found note is in the table with this id and owner; NotFound exactly when the caller owns no note with this id |
| NotesController.HasId | NotesApi/Controllers/NotesController.cs:156-159 | true exactly when some row, of any owner, has this id |
| NotesController.OthersNotesNotFound | NotesApi/Controllers/NotesController.cs:55-66 | another user's note exists, yet getting it is NotFound and the look-up of PutNote and DeleteNote finds nothing |
| NotesController.NotFoundCases | NotesApi/Controllers/NotesController.cs:58-63 | GetNote is NotFound if and only if no note has the id or the note with that id belongs to someone else |
| NotesController.NoteTable.PostNote | NotesApi/Controllers/NotesController.cs:70-97 | an invalid body is answered "Validation failed" with the mapped errors and stores nothing; a valid one is appended as one row with the next id, the caller as owner and `now` as creation time; GetNote then returns it |
| NotesController.NoteTable.PutNote | NotesApi/Controllers/NotesController.cs:101-136 | a route id unlike the body's is BadRequest; an id the caller does not own is NotFound; a null title or description fails the save with a 500; all three leave the table as it was; otherwise only that row's title and description change, and GetNote returns the updated note |
| NotesController.NoteTable.DeleteNote | NotesApi/Controllers/NotesController.cs:140-154 | the answer is NoContent or NotFound; an id the caller does not own is NotFound and changes nothing; otherwise exactly that row is removed; afterwards the caller owns no note with that id |
| NotesController.DeleteTwice | NotesApi/Controllers/NotesController.cs:140-154 | the first delete succeeds exactly when the caller owned the note; the second is NotFound |
| NotesController.OtherUserScenario | NotesApi/Controllers/NotesController.cs:55-154 | after A creates a note, B's get, update and delete of it are all NotFound, A still reads it back unchanged, and it is in A's list and not in B's |
| AuthController.FindByName | NotesApi/Controllers/AuthController.cs:84 | the user found has the normalised user name asked for; none is found exactly when no user has it |
| AuthController.FindByEmail | NotesApi/Controllers/AuthController.cs:88 | the user found has the normalised e-mail asked for; none is found exactly when no user has it |
| AuthController.CreationErrors | NotesApi/Controllers/AuthController.cs:57 | failing password validators are reported alone; otherwise a taken normalised user name puts DuplicateUserName first, before the other user validators' errors, and a free one leaves only theirs |
| AuthController.PasswordSignIn | NotesApi/Controllers/AuthController.cs:84 | a successful sign-in means some user with that normalised name may sign in and has a matching password hash; with no such user name it fails |
| AuthController.SignInOwnUser | NotesApi/Controllers/AuthController.cs:84 | for the only user with that normalised name, sign-in succeeds if and only if that user may sign in and the password matches its hash |
| AuthController.UserManager.CreateAsync | NotesApi/Controllers/AuthController.cs:56-57 | with no objection the user is appended with the hash of the password and the answer is Succeeded; otherwise the table is unchanged and the objections are returned; ids and normalised user names stay unique |
| AuthController.EmailAddressShape | NotesApi/Controllers/AuthController.cs:131 | a well-formed address is exactly one without a carriage return or line feed that is a non-empty part without '@', one '@', and a non-empty part without '@' |
| AuthController.LineBreakRejected | NotesApi/Controllers/AuthController.cs:131 | an address with a carriage return or line feed at any position is ill-formed |
| AuthController.EmailErrors | NotesApi/Controllers/AuthController.cs:130-132 | "Email is required" exactly for a null or blank e-mail, "Invalid email format" exactly for a present one failing the format check, nothing else |
| AuthController.PasswordErrors | NotesApi/Controllers/AuthController.cs:134-136 | "Password is required" exactly for a null or blank password; the length message exactly for a present one outside 6 to 100 code units |
| AuthController.ConfirmErrors | NotesApi/Controllers/AuthController.cs:138-140 | "Confirm password is required" exactly for a null or blank confirmation; the mismatch message exactly when it differs from the password |
| AuthController.RegisterErrors | NotesApi/Controllers/AuthController.cs:128-141 | each of the six messages is reported exactly when its attribute fails |
| AuthController.RegisterErrorsDeclared | NotesApi/Controllers/AuthController.cs:128-141 | only those six messages ever appear |
| AuthController.RegisterValidIff | NotesApi/Controllers/AuthController.cs:128-141 | a registration is valid if and only if the e-mail is present, not blank and well-formed, the password is present, not blank and 6 to 100 code units, and the confirmation equals it |
| AuthController.LoginErrors | NotesApi/Controllers/AuthController.cs:143-151 | "Email is required" exactly for a null or blank e-mail, "Invalid email format" exactly for a present ill-formed one, "Password is required" exactly for a null or blank password, and nothing else; so a sign-in request is valid if and only if the e-mail is present, not blank and well-formed, and the password is present and not blank |
| AuthController.RegisterMessageFields | NotesApi/Controllers/AuthController.cs:38-46 | where each of the six messages lands: email, "", password, password, confirmPassword, "" |
| AuthController.FieldOfRegisterMessage | NotesApi/Controllers/AuthController.cs:41-43 | "email" exactly for a message containing "Email"; "password" for one containing "Password" and not "Email"; "confirmPassword" for one containing "Confirm" and neither; "" for the rest |
| AuthController.FieldOfIdentityCode | NotesApi/Controllers/AuthController.cs:66-67 | "email" exactly for a code containing "Email"; "password" for one containing "Password" and not "Email"; "" for the rest |
| AuthController.IdentityFieldErrors | NotesApi/Controllers/AuthController.cs:65-69 | one entry per Identity error, in order, with the field chosen by its code and the description as message |
| AuthController.IdentityCodeFields | NotesApi/Controllers/AuthController.cs:65-69 | DuplicateUserName, the code of a taken e-mail here, lands under ""; DuplicateEmail under "email"; PasswordTooShort under "password" |
| AuthController.FindFirstValue | NotesApi/Controllers/NotesController.cs:29 | a value found belongs to a claim of that type with no claim of that type before it; none is found exactly when no claim has the type |
| AuthController.GenerateJwtToken | NotesApi/Controllers/AuthController.cs:103-125 | three claims, whose first subject is the e-mail, first token id is the fresh GUID and first NameIdentifier is the user id; the configured issuer and audience; expiry the configured minutes after `now` |
| AuthController.CallerId | NotesApi/Controllers/NotesController.cs:29 | the caller is the value of a NameIdentifier claim, absent exactly when the token has none; for a token from GenerateJwtToken it is the user id |
| AuthController.MapInbound | NotesApi/Controllers/AuthController.cs:107-109 | every subject claim becomes a NameIdentifier claim with the same value; other claims are kept, in order |
| AuthController.MappedCallerIsEmail | NotesApi/Controllers/AuthController.cs:107-109 | if a receiver maps `sub` to NameIdentifier, the first NameIdentifier claim of an issued token is the e-mail |
| AuthController.AuthController.Register | NotesApi/Controllers/AuthController.cs:33-72 | an invalid request is "Validation failed" with the mapped errors; a valid one is created through CreateAsync, answered with a token for the new user on success or "User creation failed" with Identity's mapped errors; only success changes the users table |
| AuthController.MismatchCaughtByValidation | NotesApi/Controllers/AuthController.cs:51-54 | a mismatching confirmation is already a validation error, filed under "", so the explicit check after validation is never reached |
| AuthController.AuthController.Login | NotesApi/Controllers/AuthController.cs:74-101 | an invalid request is a BadRequest with its messages; a failed sign-in, for an unknown user or a wrong password alike, is the same Unauthorized "Invalid login attempt."; a successful one gets a token for the signed-in user |
| AuthController.SignedInUserFoundByEmail | NotesApi/Controllers/AuthController.cs:84-91 | when user names are e-mails, the look-up by e-mail finds the user that sign-in found by name, so the 500 answer is never given |
| AuthController.FindByNameAppend | NotesApi/Controllers/AuthController.cs:56-57 | after a new user is appended, the look-up by its name finds it when no earlier user had that name |
| AuthController.RegisterThenLogin | NotesApi/Controllers/AuthController.cs:33-101 | registering and then signing in with the same credentials both succeed, and both tokens identify the new user by id |

## Left out

- The React client and the server's start-up file are not part of this model. That leaves out authentication middleware, token validation at the notes endpoints, CORS and the database provider.
- The `[ApiController]` attribute may answer an invalid body with its own 400 before the action runs, depending on start-up options. The model follows each action's own validation branch, as the code is written.
- Token signing, JSON serialisation and base64 encoding are left out. They are foreign code; a token is modelled as its claims.
- Bearer validation of signature and expiry is left out. It happens in not-modelled middleware.
- Inbound claim mapping is not assumed. `CallerId` reads the claims as issued. `MappedCallerIsEmail` shows what a mapping receiver would read instead.
- Identity's password hashing, password validators, the other user validators, normalisation and sign-in gates are parameters. They are framework code whose configuration lies outside the source.
- IsEmailAddress is not a parameter: it is the rule of .NET's `EmailAddressAttribute` in current .NET, with the `System.Net.AllowFullDomainLiterals` switch off, which is the default: no '\r' or '\n', and exactly one '@' that is neither the first nor the last character.
- ValidationErrors: the nullable-reference-type context is taken to add no implicit `[Required]` to `UserId` and `User`, whose nullability the source does not annotate. The project settings that would decide it are not part of this model.
- One `normalize` stands for both `NormalizeName` and `NormalizeEmail`. By default both fold to upper case. The controller sets the user name to the e-mail, so under `AuthController.Valid` the two agree.
- FindByEmail returns the first match, whereas the store's `FindByEmailAsync` uses `SingleOrDefault` and throws on two matches. Under `AuthController.Valid` the normalised e-mails are unique, so the two agree.
- CreationErrors: the duplicate-user-name error is placed before the other user-validator errors. Identity checks the name only when it is valid, which is reported by those other validators.
- GenerateJwtToken: the duration is an integer number of minutes. The source parses a double and rounds to milliseconds.
- GenerateJwtToken: `DateTime.Now` is taken as the instant `now`. Local-time conversion is not modelled.
- The fresh GUIDs are parameters. User-id freshness is a precondition of `Register`.
- Logging in the catch block of Login is left out. Login's catch-all is modelled only for a user that is not found by e-mail, which `SignedInUserFoundByEmail` shows cannot happen; other exceptions come from foreign code.
- Entity Framework's persistence is left out: `SaveChangesAsync` and database collation, with search modelled as ordinal case-sensitive.
- PutNote: a title over 100 code units is stored as sent. A database provider that enforces the column length would fail the save with a 500 instead; the provider is not part of this model.
- The concurrency handler of PutNote is left out: `DbUpdateConcurrencyException` with the `NoteExists` re-check and the rethrow. Requests are sequential here.
- The order of equal timestamps after `OrderByDescending` is up to the database. The model keeps table order.
- PostNote ignores a client-sent `Id`; the store assigns the next identity value. The database's reaction to an explicit id is not modelled.
- Ids are unbounded integers; 32-bit overflow of the identity column is not modelled.
- The order in which `ModelState.Values` lists the properties is taken as declaration order.
- Login's BadRequest body (a dictionary of property names to messages) is modelled as its list of messages.
- Model binding is left out: JSON to `Note`, query-string dates with their `DateTimeKind`, and a null `search` (taken as the empty string).
- The default `CreatedAt = DateTime.UtcNow` of a new `Note` is not modelled. No modelled operation can observe it: PostNote overwrites it with `now`, and PutNote keeps the stored value.
- The NoteTable methods take the caller as a string. A token without a NameIdentifier claim would make `CallerId` absent. The query would then compare `UserId == null`, and PostNote would store a null owner. This is not modelled.
- The `User` navigation property of `Note` and `ApplicationUser.Notes` carry nothing beyond the owner id and are not represented.

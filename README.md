# plusauto request handlers, modelled in Dafny

plusauto is a vehicle marketplace built on Nuxt and Prisma. This project models its server
handlers and its seed script:

- registration and login;
- setting or changing a password, and updating the profile's phone number;
- creating categories, listings and comments;
- the three list queries: all listings, my listings, and the comments of a listing;
- the image upload;
- the database seed script.

The database is a `Db.Store` object. It has one map per table (users, categories, listings,
comments, images, attribute definitions and attribute values), and the handlers update it in
place. `Store.Valid()` states the database's own guarantees:

- every row is stored under its id;
- user emails are unique;
- category names are unique;
- the (category, key) pairs of attribute definitions are unique.

Every state-changing handler keeps `Valid()`. Each one states its complete new state as a
function of the old one. On every error path it states that nothing changed.

The request-body validator is modelled in two parts:

- `Http.Field` describes what each body field is: absent, present with a value, or present with
  a value of the wrong type.
- One `ValidBody` predicate per handler gives the schema's rules.

Handlers return a `Result`: either the response or the `HttpError` they throw, with its status and
message as in the source.

The read endpoints are ghost functions over a snapshot of the tables (`Db.Tables`). The store's
`orderBy` is `Ordering.OrderBy`, and the lowest-id image is picked by `Ordering.Lowest`. What
each query returns (exactly the matching rows, each once) and its order are proved as lemmas.

The upload handler and the seed script are methods with loops. Each is proved against its
specification: `Upload.UrlFor` for the upload, and `Seed.Seeded` with `Seed.SeedStep` for the
seed script. A rerun of the seed script is proved to change nothing, whatever the clock
reads on the later run.

Inputs the source gets from libraries or the runtime are parameters:

- the email-format check (`isEmail`);
- password hashing and verification (`hash`, `verify`);
- the session (`Option<Session>`);
- the clock (`now`, `currentYear`);
- image conversion (`convert`);
- blob and local file storage (`put`, `storeLocally`).

The thumbnail of a listing is its image with the lowest id (`Ordering.Lowest`). These handlers
have no schema-driven attribute validator and no filtered projection of attribute values.

## Model

| member | source | states |
|---|---|---|
| Register.MatchDigitRunIff | server/api/auth/register.post.ts:14 | the matcher for the tail `\d{7,14}$` accepts exactly an all-digit rest that brings the run to 7..14 digits |
| Register.PhonePatternIff | server/api/auth/register.post.ts:12-16 | a phone number matches `^\+?[1-9]\d{7,14}$` iff it is an optional '+' followed by 8 to 15 digits, the first not 0 |
| Register.PhonePatternAccepts | server/api/auth/register.post.ts:14 | a typical number with and without '+' matches |
| Register.PhonePatternRejectsShape | server/api/auth/register.post.ts:14 | a leading 0 and too few digits do not match |
| Register.PhonePatternRejectsPlacement | server/api/auth/register.post.ts:14 | an inner '+' and 16 digits do not match |
| Register.ValidBodyRequires | server/api/auth/register.post.ts:4-17 | an accepted body has a password of at least 8, a name (when given) of 2 to 50 characters, and a non-empty phone of the pattern's shape |
| Register.EmptyPhoneAccepted | server/api/auth/register.post.ts:12-16 | an empty and a missing phone number are both accepted |
| Register.Handle | server/api/auth/register.post.ts:19-53 | 400 on an invalid body, 409 and no change if the email is in use, otherwise exactly one new user whose password is hash(plaintext), role USER, and whose session name is its name or "User" |
| Login.Handle | server/api/auth/login.post.ts:9-30 | 400 on an invalid body; success iff some user has the email and its stored password verifies; an unknown email and a wrong password give the same 401; the session carries the stored id, role, email and name or "User"; the store is not written |
| Login.LoginAfterRegister | server/api/auth/login.post.ts:12-28 | after a successful registration, logging in with the same email and password succeeds and yields the registration's session |
| Login.LoginAfterPasswordChange | server/api/user/password.patch.ts:53-60 | after a successful password change, logging in with the new password succeeds as the same user |
| PasswordPatch.ValidBodyRejects | server/api/user/password.patch.ts:5-14 | a new password shorter than 8 and a confirmation that differs are both rejected |
| PasswordPatch.Handle | server/api/user/password.patch.ts:16-63 | in order: 401, 400 on the body, 404 for a missing user; if a password is stored, 400 without a current password and 401 when it fails verification; a user without a password may set one; on success only that user's password changes, to hash(new) |
| ProfilePatch.Handle | server/api/user/profile.patch.ts:9-29 | 401 without a session, 400 on a non-string phone, 500 for a missing user; otherwise only that user's phone changes, and the new session is the old session user with the stored phone |
| CategoryNew.Handle | server/api/category/new.post.ts:10-41 | 400 on an empty name, 409 and no change on a used name, otherwise exactly one new category with the given name and description; names stay unique |
| CategoryNew.CreateTwice | server/api/category/new.post.ts:23-33 | of two requests for the same name, the second is refused with 409 when the first succeeded |
| ListingNew.PriceBounds | server/api/listing/new.post.ts:8 | a negative price is rejected; any valid body stays valid with price 0 |
| ListingNew.Handle | server/api/listing/new.post.ts:13-51 | 400 on the body, then 400 for an unknown author, then 400 for an unknown category; otherwise exactly one new listing carrying the body's fields, created and updated at `now` |
| CommentNew.Handle | server/api/comment/new.post.ts:11-54 | 401, 400 on the body, 400 for an unknown listing, 400 for a truthy unknown parent; otherwise exactly one new comment whose author is the session's id and whose parent is the given one |
| CommentNew.ReplyAcrossListings | server/api/comment/new.post.ts:35-44 | a reply whose parent belongs to another listing is accepted |
| Ordering.OrderBy | server/api/listing/all.get.ts:24-28 | the result lists every row of the set exactly once, ordered by the key in the direction asked |
| Ordering.ListsDistinct | server/api/listing/all.get.ts:24-28 | a query result that lists each row once has no row twice |
| Ordering.Lowest | server/api/listing/mine.get.ts:22-25 | the picked row is in the set and its id is lexicographically lowest |
| Ordering.LowestUnique | server/api/listing/mine.get.ts:22-25 | with distinct ids, any row whose id is no greater than every other id is the picked row, so the pick is determined |
| ListingAll.AllListings | server/api/listing/all.get.ts:5-29 | an error iff the category id is truthy and unknown, and then 404 |
| ListingAll.AllListingsExactly | server/api/listing/all.get.ts:21-28 | the response holds each selected listing once and nothing else: all listings, or those of the category when filtering |
| ListingAll.AllListingsNewestFirst | server/api/listing/all.get.ts:22-27 | newest first, and the category is embedded exactly when filtering |
| ListingAll.EmptyCategoryIdIsNoFilter | server/api/listing/all.get.ts:9-21 | an empty category id is the same as none |
| ListingAll.CreateThenList | server/api/listing/new.post.ts:42-50 | a listing just created is selected by the unfiltered query and by the query for its category |
| ListingMine.FindByKey | server/api/listing/mine.get.ts:9 | the index of the first attribute row whose definition has the key, or none when no row has it |
| ListingMine.ExtractAttributeValue | server/api/listing/mine.get.ts:5-11 | the value of the first row with the key, null when no row has it |
| ListingMine.Thumbnail | server/api/listing/mine.get.ts:22-25 | the url of the lowest-id image of the listing, or none when there is no image or that url is empty |
| ListingMine.MyListings | server/api/listing/mine.get.ts:13-14 | an error iff there is no session, and then 401 |
| ListingMine.MyListingsOnlyMine | server/api/listing/mine.get.ts:17-20 | every item is the flattening of a listing authored by the session user, and there are as many as such listings |
| ListingMine.MyListingsEveryMine | server/api/listing/mine.get.ts:17-20 | every listing of the session user has its item |
| ListingMine.MyListingsNewestFirst | server/api/listing/mine.get.ts:33 | items are newest first |
| CommentAll.AllComments | server/api/comment/all.get.ts:5-56 | 400 for a falsy listing id, 404 for an unknown listing, otherwise a response |
| CommentAll.AllCommentsOnlyTopLevel | server/api/comment/all.get.ts:27-31 | every entry is a parentless comment of the listing, as many as there are |
| CommentAll.AllCommentsEveryTopLevel | server/api/comment/all.get.ts:27-31 | every parentless comment of the listing has its entry |
| CommentAll.AllCommentsNewestFirst | server/api/comment/all.get.ts:32-55 | entries newest first, each with its author looked up |
| CommentAll.RepliesExactly | server/api/comment/all.get.ts:39-51 | an entry's replies are the comments whose parent it is, as many as there are, oldest first, each with its author |
| CommentAll.EveryReplyShown | server/api/comment/all.get.ts:39-51 | every direct reply appears under its parent |
| CommentAll.EmptyParentHidden | server/api/comment/all.get.ts:30 | a comment stored with an empty parent id is not top-level and replies only to a comment with an empty id |
| CommentAll.PostThenList | server/api/comment/new.post.ts:46-53 | a comment just created is among the top-level comments of its listing, or among its parent's replies |
| Upload.TrailingRun | server/api/upload.post.ts:26 | the longest suffix without '/' or '.' |
| Upload.WebpNameReplacesExtension | server/api/upload.post.ts:26 | when the name ends in a dot and one or more characters other than '/' and '.', that part is replaced by ".webp" |
| Upload.WebpNameAppends | server/api/upload.post.ts:26 | when no suffix is such an extension, ".webp" is appended to the whole name |
| Upload.WebpNameExamples | server/api/upload.post.ts:26 | "a.jpg" becomes "a.webp" and "a" becomes "a.webp" |
| Upload.IndexOf | server/api/upload.post.ts:20 | the first position of the character, or none when it does not occur |
| Upload.PayloadIsSecondField | server/api/upload.post.ts:20 | the payload exists iff the content has a comma, and is the text between the first comma and the next one or the end |
| Upload.PayloadOfDataUrl | server/api/upload.post.ts:20 | a data URL `header,data` without other commas yields `data` |
| Upload.Handle | server/api/upload.post.ts:5-63 | 401 without a session, 400 without files; 500 as soon as a file has no comma-separated payload or its payload does not convert; otherwise one url per file in order, each the blob url of the file's WebP name in production and "/images/listings/" plus the locally stored name otherwise (`UrlFor`) |
| Seed.SeedAddsOnlySeedDefinitions | prisma/seed.ts:105-127 | every definition the script adds sits under the category row named after its seed category and carries that attribute's name, key, type, options and bounds; it is required exactly when the attribute says `required: true`, so an omitted `required` is stored as false |
| Seed.SeedEnumsHaveOptions | prisma/seed.ts:36-87 | every ENUM attribute of the seed data has a non-empty option list |
| Seed.SeedKeysDistinct | prisma/seed.ts:20-96 | attribute keys are distinct within each seeded category |
| Seed.SeedBoundsOrdered | prisma/seed.ts:25-49 | where both numeric bounds are given, min does not exceed max, for a current year of at least 1899 |
| Seed.SeedYearBoundsInverted | prisma/seed.ts:30-31 | before 1899 the year bounds are inverted |
| Seed.SeedNamesDistinct | prisma/seed.ts:20-96 | the seeded category names are pairwise distinct |
| Seed.UpsertCategory | prisma/seed.ts:99-103 | the category with the name gets the description, or a new one is created; nothing else changes |
| Seed.CreateDefinitionIfAbsent | prisma/seed.ts:122-127 | a definition is created iff none has the same category and key; otherwise nothing changes |
| Seed.DefineOne | prisma/seed.ts:122-127 | one step of the definition loop keeps the loop's invariant and defines the attribute's key |
| Seed.DefineAll | prisma/seed.ts:119-128 | afterwards every key of the category is defined, only definitions were added, all built from the seed data, and nothing changes if all keys were defined already |
| Seed.SeedOne | prisma/seed.ts:98-131 | the category is seeded, other categories keep their rows, no definition is changed, and nothing changes if it was seeded already |
| Seed.SeedAll | prisma/seed.ts:98-131 | every category of the data is seeded, only seed-built rows change, and a seeded store is left unchanged |
| Seed.SeededClockFree | prisma/seed.ts:20-131 | whether the seed data is in the store does not depend on the current year or instant, which only set two bounds |
| Seed.Run | prisma/seed.ts:5-134 | the script seeds all four categories with their definitions, changes nothing outside categories and definitions, and a run over a store any earlier run seeded, with whatever clock, changes nothing |
| Seed.RerunLater | prisma/seed.ts:5-134 | two runs with different clocks leave the store as the first run left it: the stored year and date bounds stay the first run's, and every added definition is built from the first run's data |

## Left out

- String lengths: the schema counts UTF-16 code units, and the model counts characters. Strings of characters outside the Basic Multilingual Plane therefore measure differently.
- Library calls are parameters:
  - The email-format check of the validator is `isEmail`.
  - `hashPassword` and `verifyPassword` are `hash` and `verify`.
  - `verifyPassword` on a null stored password is modelled as failing.
- Session machinery: `requireUserSession` is an `Option<Session>` parameter, and `setUserSession` and `replaceUserSession` are return values. Logout and the OAuth callback are not part of this model.
- The Prisma schema is not part of this model. It defines:
  - the defaults `role USER`, id generation and the timestamps, which the model assumes;
  - foreign keys, which the model does not enforce.
- CommentNew.Handle: stores the session's own id as the author, as the code does. A foreign-key failure for an id that is no user id is not modelled.
- CommentNew.Handle: an empty `parentId` is stored as given.
- Upload.Handle: does not model WebP conversion, base64 decoding, the blob store or the local file store. They are the parameters `convert`, `put` and `storeLocally`.
- Upload.Handle: blobs stored for earlier files before a later file fails are not tracked.
- Upload.Handle: `put` and `storeLocally` always return a url; a failing `put` or `storeFileLocally` (a 500 in the source) is not modelled.
- Seed.Run: models the fallback insert-if-absent loop only. The `createMany` with `skipDuplicates` tried first has the same effect when (category, key) is unique, and is not modelled separately. Logging, the exit code and the disconnect are left out.
- Requests are modelled one at a time. Registration and category creation check for a used email or name first and insert after; two concurrent requests for the same email or name can both pass the check, and the second insert then fails on the unique constraint with a 500, not the 409 the contracts state.
- Clocks: timestamps are naturals, `now` is a parameter, and the seed's current year and ISO instant are parameters. No date parsing is done.
- Numbers: prices are reals, and JSON numbers in attribute values are integers.
- ListingAll.AllListings: rows with equal `createdAt` may come in any order. The store leaves their order unspecified, and so does the model.
- ListingMine.MyListings: rows with equal `createdAt` may come in any order, for the same reason.
- CommentAll.AllComments: rows with equal `createdAt` may come in any order, for the same reason.
- A listing's attribute-value rows are kept in the order stored, which is the order the store returns them in.
- Ordering.Lowest: compares ids character by character. The database's collation may order them differently.
- Single queries without logic are not part of this model: the user and category listings and the has-password check.
- The by-id handlers are not part of this model: the get handlers (a lookup and a 404), and the patch, put and delete handlers (400 on the body, 404, 403 ownership and role checks, a self-delete guard for users, a 409 name check for categories, and the truthiness-based partial update of a listing).
- Static file serving, the API spec route, the client composables and the Nuxt configuration are not part of this model either.

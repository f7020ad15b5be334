# Photo-sharing backend: route handlers as verified Dafny

This project models the request handlers of a small photo-sharing REST backend.
They are the photo routes, the user routes and the `isAuthenticated` session guard.
The document database is modelled as two in-memory stores:
- `Photos.PhotoStore` holds a map from photo id to photo document, with the comments embedded.
- `Users.UserStore` holds a map from user id to user document.

Each route handler is a method on its store. It takes:
- the request's session, which may be null;
- the request fields it reads;
- any value the handler takes from outside the store, such as a fresh document id, a clock reading or the object-store bucket and region.

It returns the reply's status and, where the route sends one back, the document. Each handler's contract does the following:
- It gives the whole decision chain in the handler's order: guard, input validation, lookup, ownership, then the write.
- It states the store's new state exactly: one document replaced, added or removed, or nothing changed on every refusal.
- It preserves the store invariant. For photos, each document sits under its own id and comment ids within a photo are distinct. For users, each document sits under its own id and login names are unique.

Modules:
- `Http`: identifiers, request-body fields, uploads and reply statuses. A JSON body field is `BodyValue`: absent, a string, or another JSON value of which only its truthiness matters. Multipart fields are `Option<string>`.
- `Text`: ECMAScript `String.prototype.trim`, the decimal form of `Date.now()`, Node's `path.extname`, and the object key and public URL of an upload.
- `Auth`: the session object and the `isAuthenticated` guard.
- `Photos`: photo and comment documents, and the eight photo routes.
- `Users`: user documents, the password-free view, and the six user routes.

## Behaviour of the code worth knowing

- The caption update accepts `""` and whitespace-only captions; only a non-string caption is refused (api/Photo/index.js:87).
- The per-user listing (api/Photo/index.js:14) asks for no order, so `ListByUser` promises none.
- Deleting an unknown photo, deleting a comment on an unknown photo and updating a comment on an unknown photo all answer 400, not 404 (api/Photo/index.js:159-161, 210-212, 260-262).
- Registration sends back the stored user with its password (api/User/index.js:75).
- In the add-comment handler, `comment.trim()` runs before the `try` block (api/Photo/index.js:123). A truthy comment that is not a string makes the handler throw with no reply of its own, which the model reports as `Uncaught`. The same call in the comment update is inside the `try` (api/Photo/index.js:252) and gives 500.
- Each handler is modelled as one atomic step. The code awaits between its check and its write, so login-name uniqueness holds only for requests that do not interleave (see "Left out").

## Model

| member | source | states |
|---|---|---|
| Auth.IsAuthenticated | middleware/auth.js:1-10 | the request proceeds exactly when a session exists and holds a user, and it proceeds as that user; otherwise 401 |
| Text.Trim | api/Photo/index.js:123 | the trimmed string is empty exactly when every character is ECMAScript whitespace, and a non-empty result neither starts nor ends with whitespace |
| Text.TrimStart | api/Photo/index.js:123 | the result is the suffix left after removing the leading whitespace: what was removed is all whitespace, and the result does not start with whitespace |
| Text.TrimEnd | api/Photo/index.js:252 | the result is the prefix left after removing the trailing whitespace: what was removed is all whitespace, and the result does not end with whitespace |
| Text.Decimal | api/Photo/index.js:50 | the decimal form of a clock reading is a non-empty string of digits with no leading zero, except for 0 itself |
| Text.DigitsValueOfDecimal | api/Photo/index.js:50 | reading the decimal form back gives the same number, so distinct clock readings print differently |
| Text.LastIndexOf | api/Photo/index.js:49 | the index found holds the character and no later index does; no index is found only when the character does not occur |
| Text.BaseName | api/User/index.js:189 | the base name is the suffix of the file name that follows its last '/': it contains no '/', and it is the whole name or is preceded by a '/' |
| Text.ExtName | api/Photo/index.js:49 | the extension is a suffix of the name; it is "" or starts with '.', and after that first character it contains no '.' and no '/' |
| Text.ExtNameEmpty | api/Photo/index.js:49 | the extension is "" exactly when the base name has no '.', has its only '.' in front, or is ".." |
| Text.StorageKeyInjective | api/Photo/index.js:50 | for one folder, owner and extension, equal object keys imply equal clock readings |
| Text.ObjectUrl | config/s3.js:23 | the public URL of an object ends with its key |
| Text.UploadUrlInjective | api/User/index.js:189-192 | two uploads by one owner of files with the same extension at different milliseconds get different URLs |
| Http.Truthy | api/Photo/index.js:123 | JavaScript truthiness of a body field: an absent field is falsy, and a string is truthy exactly when it is non-empty |
| Http.Supplied | api/User/index.js:50 | a string-or-missing field is truthy exactly when it is present and non-empty |
| Text.StorageKeyLayout | api/Photo/index.js:50 | an object key reads back as its parts: the `<folder>/<ownerId>-` prefix, then decimal digits whose value is the clock reading, then the extension |
| Text.UploadUrlEndsWithKey | api/Photo/index.js:49-53 | the URL of an upload ends with the object key built from the owner, the clock reading and the extension of the file's original name |
| Photos.RewriteKeepsIdsDistinct | api/Photo/index.js:277 | rewriting one comment's text keeps the comment ids distinct |
| Users.WithoutPassword | api/User/index.js:120-121 | the reply view keeps every field of the user except the password |
| Users.SessionUserOf | api/User/index.js:113-118 | the session holds the user's id, login name, first name and last name |
| Users.AvatarUrl | api/User/index.js:187-193 | a new avatar URL exists exactly when a file came with the request, and it is the upload URL under `avatars/<id>-<millis><ext>` |
| Photos.FindComment | api/Photo/index.js:215 | the index found is the first comment with that id; no index is found only when no comment has that id |
| Photos.RemoveAtDropsOnlyThatComment | api/Photo/index.js:226 | removing one comment from a list with distinct ids keeps every other comment, leaves none with that id, shortens the list by one and keeps the ids distinct |
| Photos.InsertAddsOnlyThatPhoto | api/Photo/index.js:184 | inserting a photo into the listing adds exactly that photo |
| Photos.InsertKeepsNewestFirst | api/Photo/index.js:184 | inserting into a newest-first list keeps it newest first |
| Photos.InsertKeepsIdsDistinct | api/Photo/index.js:184 | inserting a photo with a new id keeps the listing free of duplicates |
| Photos.PhotoStore.ListByUser | api/Photo/index.js:10-22 | the listing holds exactly the stored photos of that user, each once; the "no photos yet" notice appears exactly when the listing is empty |
| Photos.PhotoStore.ListAll | api/Photo/index.js:182-189 | the listing holds every stored photo exactly once, ordered by `date_time` with the newest first; the notice appears exactly when the listing is empty |
| Photos.PhotoStore.Create | api/Photo/index.js:32-68 | 401 without a session user; 400 without a file, with nothing stored; otherwise a new photo is stored with the URL of `photos/<owner>-<millis><ext>`, the owner, the caption or "", and no comments; nothing else changes |
| Photos.PhotoStore.UpdateCaption | api/Photo/index.js:80-110 | 401, then 400 for a non-string caption, 404 for an unknown photo, 403 for a non-owner; otherwise only that photo's caption changes, to the given string ("" included) |
| Photos.PhotoStore.AddComment | api/Photo/index.js:118-143 | 401, then 400 for a missing, empty or blank comment, a throw for a truthy non-string, 404 for an unknown photo; otherwise exactly one comment by the requester is appended to that photo, whoever owns it, and comment ids stay distinct |
| Photos.PhotoStore.DeletePhoto | api/Photo/index.js:151-171 | 401, then 400 for an unknown photo and 403 for a non-owner, with the photo kept; otherwise exactly that photo is removed |
| Photos.PhotoStore.DeleteComment | api/Photo/index.js:200-231 | 401, then 400 for an unknown photo, 404 for an unknown comment, 403 for anyone but the comment's author (the photo owner included); otherwise exactly that comment is removed and the others keep their order |
| Photos.PhotoStore.UpdateComment | api/Photo/index.js:243-283 | 401, then 400 for a missing, empty or blank text, 500 for a truthy non-string, 400 for an unknown photo, 404 for an unknown comment, 403 for anyone but its author; otherwise only that comment's text changes |
| Users.WithoutPasswordForgetsOnlyPassword | api/User/index.js:197-198 | the password-free view of two users is the same exactly when the users differ at most in their passwords |
| Users.ReplaceKeepsLoginNamesUnique | api/User/index.js:166-178 | replacing a user keeps login names unique when the new login name is the old one or no other user holds it |
| Users.AssignProfileFields | api/User/index.js:181-194 | each name and profile field takes the supplied value when there is one, the empty string included; the avatar takes the new URL when there is one; the id, password and login name stay |
| Users.UserStore.FindByLoginName | api/User/index.js:167-170 | a user is found exactly when some user other than the excluded one holds the login name, and the user found is such a user |
| Users.UserStore.List | api/User/index.js:10-13 | the listing holds exactly the password-free view of every stored user, each once |
| Users.UserStore.Get | api/User/index.js:24-35 | the password-free view of a stored user; 404 for an unknown id |
| Users.UserStore.Create | api/User/index.js:46-75 | 400 when the login name, password, first or last name is missing or empty, and 400 when the login name is taken, with nothing stored in either case; otherwise the new user is stored, and sent back with its password and no profile fields; login names stay unique |
| Users.UserStore.Login | api/User/index.js:86-126 | 400 for a missing field, an unknown login name or a wrong password, with the session unchanged; otherwise the session holds the user's id, login name and names, the guard then lets the session through, and the reply omits the password |
| Users.UserStore.Save | api/User/index.js:195 | replacing a user whose login name is kept or free keeps the store invariant, and only that document changes |
| Users.UserStore.UpdateProfile | api/User/index.js:138-203 | 401, then 403 unless the session user updates themself, 404 for an unknown id, 400 when a new non-empty login name belongs to another user, with nothing changed; otherwise only that user changes, field by field as supplied, and the reply omits the password |
| Users.UserStore.Logout | api/User/index.js:215-224 | 401 without a session user, with the session unchanged; otherwise 200 and the session holds no user, so the guard refuses it afterwards |

## Left out

- Failures of the database or the object store, and the 500 replies they lead to, are not modelled. Every read, write and upload succeeds.
- Users.UserStore.List: the 400 reply the code sends when the query fails (api/User/index.js:16) is not modelled.
- Users.UserStore.Logout: the session store's `destroy` callback, its error path (500) and the cookie reset are not modelled. Logout is modelled as the session no longer holding a user.
- Logging to the console is not modelled.
- Users.UserStore.Create: each handler is modelled as one atomic step, but the code awaits between the login-name check and the write. Registration checks at api/User/index.js:56 and saves at :71; the profile update checks at :167 and saves at :195. Two interleaved requests for one login name can both pass the check and both be saved, and no unique index is visible. So the invariant that login names are unique (`Users.UserStore.Valid`) holds only when requests do not interleave. Concurrency is not modelled.
- Fresh document ids come in as inputs, each required to be unused: the photo id, the comment id and the user id. So do the clock readings: `Date.now()` for object keys, `new Date()` for `date_time`, and the two separate readings in photo creation are separate inputs. The bucket name and region come in as inputs too.
- The upload middleware (file-type filter, size limit, memory storage) is not part of this model. A file that reaches a handler is given by its original name only. The object-store client is reduced to the URL it returns (config/s3.js:23).
- Users.UserStore.Create: fields of a JSON body on the user routes are modelled as strings or absent. A non-string JSON value there (a number, an object) is not modelled.
- Schema defaults, casting and validation by the document mapper are not part of this model, since model/User and model/Photo are not part of it. Neither is a malformed id, which the mapper answers with 500 (`CastError`).
- Users.UserStore.Login: when the store holds two users with one login name, `findOne` returns some one of them. The model keeps login names unique, so at most one user matches.
- Text.ExtName: Node's handling of trailing '/' characters in `path.extname` is not modelled. Uploaded file names do not end in '/'.
- Photos.PhotoStore.ListAll: for photos with equal `date_time`, the database's order is not modelled. Any newest-first order is allowed.
- Photos.PhotoStore.ListByUser: the database's natural order is not modelled, since the code asks for no order.
- Password storage is not modelled. Passwords are stored and compared as plain strings, as the code does.
- The server bootstrap (index.js), the post routes (api/Post/index.js) and the response shaping beyond the status and the returned document are not part of this model. Neither are the like toggle and the liked-photos listing, which the code does not have.

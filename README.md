# Customer workflow of the restful-laravel API, in Dafny

This project models the customer endpoints of a small Laravel CRUD API, and
the two collaborators they use.

- `CustomerController`: `index`, `show`, `store`, `update` and `destroy`.
- `S3Services`: the helper that uploads customer images to an S3 bucket,
  deletes them and replaces them.
- `CustomerPolicy::modify`: the rule that only the owner of a customer may
  change or delete it.

The database table and the bucket become in-memory state:

- the `customers` table is a `map<int, Customer>` and an auto-increment
  counter, held by the `CustomerController` class;
- the bucket is a `set<string>` of object keys, held by the `Disk` class.

The controller methods change that state in place. Their postconditions
state the whole new table and bucket, and the order the code checks in:

1. an unknown id gives not found;
2. a user who is not the owner is forbidden;
3. failed validation touches nothing;
4. the upload happens before the row write;
5. the image is deleted before the row.

A database exception rolls back the table but not the bucket. Every endpoint
keeps the table well keyed, with each row under its own id and below the
next id, and keeps emails unique.

The string logic of the storage helper is modelled as pure functions:

- PHP's `explode` and `trim`;
- `sliceOldPath`, which turns a public URL back into a storage key;
- the file name the helper composes.

Each function is proved against a partner. `explode` round-trips through
`implode`, trimming is idempotent, and `sliceOldPath` inverts the URL scheme.
The `Scenarios` module is a client that proves facts about whole sequences
of calls from the endpoints' contracts alone. For example, create, rename
and delete leave the table and the bucket where they started.

Whatever the environment decides during a request is an `Oracle` value
passed to each operation:

- the `uniqid()` value;
- whether the disk accepts a write or a delete;
- whether the database write throws.

The validator's email-syntax rule is a function `isEmail` fixed when the
controller is constructed. The acting user is a parameter, since
authentication happens upstream in middleware.

`store`'s catch block only rolls the transaction back, so an object
uploaded before a failed row write stays in the bucket (see
`Controllers.CustomerController.Store`).

Several PHP and Laravel behaviours are modelled explicitly:

- Laravel turns the "Undefined array key 1" warning of
  `explode(".com/", $path)[1]` into an exception that the controllers'
  catch blocks report. `SliceOldPath` therefore returns `Err` with that
  message.
- `if ($customer->imageUrl)` and `if (!$path)` use PHP truthiness, so
  `""` and `"0"` count as absent.
- `$file->store($directory, 's3')` stores the object under
  `trim($directory . '/' . $hashName, '/')`.

## Model

| member | source | states |
|---|---|---|
| Text.FindFrom | app/services/S3Services.php:14 | the position `explode` splits at: an occurrence of the delimiter at or after the start, with none between the start and it; `None` only when there is none at all |
| Text.Explode | app/services/S3Services.php:14 | PHP `explode`: at least one part, imploding the parts gives back the input, no part contains the delimiter, a single part exactly when the input has no delimiter, the first cut is at the first occurrence, and no occurrence starts inside a part and runs into the delimiter after it, so every cut is the first occurrence after the previous one, as PHP cuts even a self-overlapping delimiter |
| Text.Trim | app/services/S3Services.php:26 | PHP `trim($s, c)`: the result is a slice of the input with only `c` around it, and it neither starts nor ends with `c` |
| Text.TrimIsSlice | app/services/S3Services.php:26 | stripping `c` from the left, then from the right, leaves the middle slice of the input with only `c` on both sides |
| Text.TrimIdempotent | app/services/S3Services.php:26 | trimming the directory twice is the same as trimming it once |
| Text.TrimNoOp | app/services/S3Services.php:26 | a string that neither starts nor ends with `c` is left as it is |
| Fakes.StoredKeyUnderDirectory | app/services/S3Services.php:26-27 | with a trimmed, non-empty directory and a name without a leading or trailing `/`, the stored key is exactly `directory/name` |
| Fakes.Disk.Store | app/services/S3Services.php:27 | an accepted write adds exactly the stored key and returns it; a refused write returns the empty (falsy) path and changes nothing |
| Fakes.Disk.Delete | app/services/S3Services.php:39 | returns what the disk reports, removes exactly that key when it succeeds, and changes nothing for an absent key |
| Services.SliceOldPath | app/services/S3Services.php:12-16 | succeeds exactly when the URL contains `.com/`, and then returns the text after the first `.com/` up to the next one or to the end, which holds no `.com/`; otherwise it fails with PHP's "Undefined array key 1" |
| Services.SliceOldPathInvertsUrl | app/services/S3Services.php:12-16 | round-trip with the URL scheme: the key of `host + ".com/" + key` is `key` when neither part contains `.com/` |
| Services.Stem | app/services/S3Services.php:24 | the client name's stem is its prefix up to the first `.`: it contains no `.`, and the character after it, if any, is a `.` |
| Services.ComposeFilename | app/services/S3Services.php:24-25 | the composed name is the caller's name verbatim, or exactly stem, `-`, the `uniqid()` value, `.` and the client extension |
| Services.S3Services.Upload | app/services/S3Services.php:18-34 | an invalid file fails with "Invalid file upload." before any write; otherwise the bucket gains exactly the key under the trimmed directory, an empty path fails with its own message, and success returns that key's URL; the composed file name has no effect |
| Services.S3Services.Delete | app/services/S3Services.php:36-40 | a URL without `.com/` fails before the disk is reached; otherwise exactly the sliced key is deleted and the disk's answer is returned |
| Services.S3Services.Update | app/services/S3Services.php:42-46 | deletes the old key, ignores the delete's answer and uploads; the bucket is the delete's effect plus the upload's, so a failed upload leaves the old object gone |
| CustomerPolicy.Modify | app/Policies/CustomerPolicy.php:11-16 | allows exactly when the user's id equals the customer's owner id; otherwise denies with "You do not own this customer." |
| CustomerPolicy.ModifyDependsOnlyOnIds | app/Policies/CustomerPolicy.php:13 | the decision depends on the two ids alone, not on name, email or image |
| Controllers.StoreErrors | app/Http/Controllers/CustomerController.php:53-59 | `store`'s rules: no failing field exactly when name, email (syntax, length, uniqueness) and image (valid, jpeg/png/jpg/gif, at most 2048 KB) all pass |
| Controllers.UpdateErrors | app/Http/Controllers/CustomerController.php:104-110 | `update`'s rules apply only to present keys, and the row's own email does not count as taken |
| Controllers.Fill | app/Http/Controllers/CustomerController.php:137 | filling name and email never changes the id, the owner or the image URL |
| Controllers.InsertKeepsWellKeyed | app/Http/Controllers/CustomerController.php:75 | creating a row under the next auto-increment id uses a free id and keeps the table well keyed |
| Controllers.ReplaceKeepsWellKeyed | app/Http/Controllers/CustomerController.php:138 | saving an existing row under its own id keeps the table well keyed |
| Controllers.WriteKeepsEmailsUnique | app/Http/Controllers/CustomerController.php:55 | writing a row whose email no other row has, as the `unique` rule checks, keeps emails unique across the table |
| Controllers.CustomerController.constructor | app/Http/Controllers/CustomerController.php:18-21 | the controller starts over an empty, valid table with the given storage helper |
| Controllers.CustomerController.Index | app/Http/Controllers/CustomerController.php:30-38 | lists exactly the rows of the table, whoever owns them |
| Controllers.CustomerController.Show | app/Http/Controllers/CustomerController.php:40-49 | the row under the id, or not found when there is none |
| Controllers.CustomerController.Store | app/Http/Controllers/CustomerController.php:51-97 | validation failure changes nothing; otherwise the bucket gains the upload's key; the row is created under the next id, which then advances, owned by the acting user, with the request's name and email and the upload's URL, exactly when upload and database succeed; an exception rolls the table back and reports its message, but the uploaded object stays |
| Controllers.CustomerController.Update | app/Http/Controllers/CustomerController.php:99-156 | not found, then forbidden, then validation, each changing nothing; an image replaces the old object through `S3Services::update` or is a plain upload when there was none; only the present name and email change, the image URL becomes the new URL, and id and owner stay; an exception reports the slice's, the upload's or the database's message and rolls back the table but not the bucket |
| Controllers.CustomerController.Destroy | app/Http/Controllers/CustomerController.php:158-187 | not found, then forbidden, changing nothing; the image object is deleted before the row; the row is gone exactly when the slice and the database succeed; an exception reports the slice's or the database's message and rolls back the table but not the deleted object |
| Scenarios.CreateThenShow | app/Http/Controllers/CustomerController.php:51-97 | a valid create adds one row under a fresh id, which `show` then returns, and adds exactly its image key to the bucket |
| Scenarios.RenameThenShow | app/Http/Controllers/CustomerController.php:99-156 | the owner resending their own email passes uniqueness; only the name changes and the bucket is untouched |
| Scenarios.DestroyThenShow | app/Http/Controllers/CustomerController.php:158-187 | the owner deleting a customer whose URL follows the scheme removes that key and the row, and the id is then not found |
| Scenarios.CreateRenameDestroy | app/Http/Controllers/CustomerController.php:51-187 | create, rename and delete by the owner, with a fresh key, leave the table and the bucket where they started |

## Left out

- `app/Providers/AuthServiceProvider.php` only registers the policy with `Gate`. The model calls `CustomerPolicy.Modify` directly.
- The JSON envelopes, status messages and HTTP status codes are left out. Each endpoint returns an `Outcome` tag with the data it carries.
- The `auth:sanctum` middleware is left out. The acting user is a parameter.
- Parsing of the Validator's rule strings is left out, and so is its error-message format. Validation failures are reported as the set of failing field names.
- Email syntax is the abstract function `isEmail`.
- The image's guessed extension is a field of `UploadedFile`; MIME sniffing is not modelled.
- Controllers.ImageOk: does not model Laravel's refusal, inside the `image` and `mimes` rules, of a file whose client extension is a PHP one (`php`, `phtml`, `phar`, ...), because that check lower-cases and trims the extension and the model has no case folding.
- Email uniqueness compares strings exactly. The database collation may compare case-insensitively; the model does not capture that.
- The model assumes the URL scheme `host + ".com/" + key`. Laravel's `Storage::url` configuration and the S3 network are not modelled.
- `uniqid()` and the random `hashName` are values the environment supplies.
- Disk outcomes are the booleans of `Oracle`, and a database failure is an optional exception message. Any other exception the disk or the database could throw is not modelled.
- Controllers.CustomerController.Store: assumes a failed create does not use up an auto-increment id (`nextId` is unchanged on a server error). SQLite behaves this way, while MySQL InnoDB and PostgreSQL sequences keep the id a rolled-back insert took, and the PHP code does not decide between them.
- Eloquent, timestamps and the database's own transaction machinery are left out. A transaction is a snapshot of the table that the catch block restores.
- Concurrency is left out, including the race in which two concurrent creates both pass the email uniqueness check.
- `Controllers.CustomerController.Store`: its postcondition assumes `name`, `email` and `image` arrive as a string, a string and a file. Non-string request values, which the `string` rule rejects, are not modelled.
- `Controllers.CustomerController.Index`: returns a set of rows rather than an ordered list, so the database's row order is not captured.

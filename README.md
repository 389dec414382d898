# afilia repository core, modelled in Dafny

This project models the core of afilia. afilia creates a directory-backed, content-addressed storage repository. The core has two parts.

1. The **error taxonomy** (`src/filesystem/error.rs`), modelled in `errors.dfy`:
   - the custom error kinds and their rendering;
   - `InternalError`, with one `From` conversion per foreign cause;
   - `AppError { error_kind, msg }`, with `new_custom`, `from_error` and `Display`;
   - the lossy `Clone`;
   - the `context!` macro, with the part of `format!` it uses.
2. **Repository identity and creation** (`src/filesystem/repository.rs`):
   - `identity.dfy`: the `RepositoryID` record. Its sign is the lowercase hex of a digest of `uuid ":" name ":" payload`.
   - `catalog.dfy`: the database handle, `execute`, and the five-statement schema script that `RepositoryDB::create` runs.
   - `repository.dfy`: the order of steps in `Repository::create`.

Shared pieces:
- `text.dfy` holds the small encoders the source gets from its libraries: UTF-8 (`str::as_bytes`) and lowercase hex (`Hash::to_hex` and the UUID display form).
- `wrappers.dfy` holds `Option` and `Result`.

How the outside world is modelled:
- The UUID is an input, 16 bytes. Its random generation is not modelled.
- BLAKE3 is the parameter `hash`. It can be any function from byte strings to 32-byte digests.
- Each foreign cause (`io::Error`, `serde_json::Error`, `rusqlite::Error`, …) is a datatype holding only its display text.
- SQLite is reduced to its set of table names. A statement is either `CreateTable(table, ifNotExists)` or `Malformed`.
- The file system is a `Host` object. It knows the marker paths that cannot be created, the database paths that cannot be opened, and the tables already in each database file. It records every step of `Repository::create` in a trace.
- A Rust panic is the outcome `Panicked(step)`. Two steps can panic: the marker write, and the first `execute` on a missing connection.

What the proofs establish:
- **Rendering.** Each of the seven `Display` categories is free of colons. The text before the first colon therefore names the variant, so two errors that render alike have the same variant.
- **Clone.** `Clone` returns the same placeholder for every input. It is the identity only on that placeholder.
- **Sign.** The sign is always 64 lowercase hex digits and decodes back to the digest. An identity verifies against the payload it was built with. UTF-8 encoding is injective, so changing the payload, the name or the UUID changes the bytes that are hashed. Unless `hash` collides on those two byte strings, the changed identity does not verify.
- **Preimage.** The preimage fixes the UUID, because its string form is 36 characters with no colon. It fixes the name and the payload only when the name has no colon. Moving a colon across the name/payload border gives the same preimage, so it gives the same sign under every hash (`PreimageAmbiguousAcrossColon`).
- **Schema script.** On an empty database the script creates `storage_unit`, `queue` and `parameter`. It never creates `main_catalog`: that statement is malformed, because `storage_path VARCHAR(` is never closed. The second `storage_unit` creation fails, and the script still reports `Ok(())`. Run again on the same database, it fails at its first statement.

Behaviour of the code worth knowing:
- `Repository::create` opens the database before it writes the marker. This is the field order of the struct literal.
- No result is propagated. A failed marker write panics. A failed open only leaves the connection `None`; the panic comes at the first `execute` of the schema script.
- `RepositoryID::new` does not check that the name is non-empty.

## Model

| member | source | states |
|---|---|---|
| `Errors.CustomKindDisplay` | src/filesystem/error.rs:21-38 | each kind has a fixed sentence; exactly `PhantomCloneError` renders "no error" |
| `Errors.ParseCustomKindInvertsDisplay` | src/filesystem/error.rs:21-38 | reading a kind's sentence back gives the kind |
| `Errors.CustomKindDisplayInjective` | src/filesystem/error.rs:21-38 | two kinds render alike if and only if they are equal |
| `Errors.FromIo` | src/filesystem/error.rs:63 | an `io::Error` lands in `Io` and keeps its text as the cause |
| `Errors.FromJson` | src/filesystem/error.rs:64 | a `serde_json::Error` lands in `Json` and keeps its text |
| `Errors.FromSystemTime` | src/filesystem/error.rs:65 | a `SystemTimeError` lands in `SystemTime` and keeps its text |
| `Errors.FromParseInt` | src/filesystem/error.rs:66 | a `ParseIntError` lands in `Parse` and keeps its text |
| `Errors.FromUtf8` | src/filesystem/error.rs:67 | a `Utf8Error` lands in `Utf8` and keeps its text |
| `Errors.FromDb` | src/filesystem/error.rs:68 | a `rusqlite::Error` lands in `Db` and keeps its text |
| `Errors.FromConversionsInjective` | src/filesystem/error.rs:53-61 | each of the six conversions loses nothing: two causes convert to the same error if and only if they are equal |
| `Errors.NewCustom` | src/filesystem/error.rs:79-84 | kind is `Custom(kind)`, message verbatim, the cause text is the kind's sentence |
| `Errors.NewCustomDisplay` | src/filesystem/error.rs:79-84 | a custom error renders `custom error: msg (kind sentence)` |
| `Errors.FromError` | src/filesystem/error.rs:87-92 | stores the converted cause and the message unchanged |
| `Errors.Display` | src/filesystem/error.rs:95-113 | a rendering is as long as the category, the message and the cause plus the five characters `": "`, `" ("` and `")"`; where each part sits is stated by `DisplayLayout` |
| `Errors.DisplayLayout` | src/filesystem/error.rs:95-113 | a rendering is the category, `": "`, the message, `" ("`, the cause and `")"`, each at its own position |
| `Errors.DisplayNamesVariant` | src/filesystem/error.rs:95-113 | the text before the first colon of a rendering reads back as the variant, whatever the message holds |
| `Errors.ParseCategoryInvertsCategory` | src/filesystem/error.rs:97-111 | each category word reads back as its variant |
| `Errors.CategoriesDistinct` | src/filesystem/error.rs:97-111 | the seven category words are pairwise distinct |
| `Errors.DisplayDistinguishesVariants` | src/filesystem/error.rs:95-113 | two errors with equal renderings have the same variant, whatever their messages |
| `Errors.Clone` | src/filesystem/error.rs:116-120 | every clone is `Custom(PhantomCloneError)` with the message "fake clone error" |
| `Errors.CloneDisplay` | src/filesystem/error.rs:116-120 | every clone renders `custom error: fake clone error (no error)` |
| `Errors.CloneIgnoresInput` | src/filesystem/error.rs:116-120 | a clone does not depend on its input |
| `Errors.CloneIsIdentityOnlyOnPlaceholder` | src/filesystem/error.rs:116-120 | a clone equals the original if and only if the original is the placeholder |
| `Errors.CloneLosesCause` | src/filesystem/error.rs:116-120 | a clone never carries a foreign cause, so a clone of a non-custom error differs from it |
| `Errors.Holes` | src/filesystem/error.rs:128 | an accepted format string has at most one `{}` hole per two characters |
| `Errors.Format` | src/filesystem/error.rs:128 | a format string without braces is copied through unchanged; how holes take arguments is stated by `FormatOneHole` and `FormatEscape` |
| `Errors.FormatEscape` | src/filesystem/error.rs:128 | a brace-escaped text has no holes and `format!` gives it back verbatim |
| `Errors.FormatOneHole` | src/filesystem/error.rs:128 | a one-hole format string puts the argument between its literal parts |
| `Errors.Context` | src/filesystem/error.rs:123-131 | `context!` keeps the cause and its message is the formatted text |
| `Errors.ContextOneHole` | src/filesystem/error.rs:123-131 | with one hole, the message is the argument framed by the literal text |
| `Text.FromHexToHex` | src/filesystem/repository.rs:30 | hex decoding undoes `to_hex` |
| `Text.ToHexInjective` | src/filesystem/repository.rs:30 | distinct digests have distinct hex signs |
| `Text.ToHex` | src/filesystem/repository.rs:30 | `to_hex` gives two lowercase hex digits per byte; `FromHexToHex` inverts it |
| `Text.Utf8Append` | src/filesystem/repository.rs:43 | `as_bytes` of a concatenation is the concatenation of the bytes |
| `Text.Utf8Ascii` | src/filesystem/repository.rs:43 | ASCII text encodes one byte per character, each equal to its code |
| `Text.Utf8` | src/filesystem/repository.rs:43 | `as_bytes` yields at least one byte per character; its content is stated by `Utf8Append`, `Utf8Ascii` and `Utf8Injective` |
| `Text.EncodeCharDecodes` | src/filesystem/repository.rs:43 | a character's UTF-8 bytes announce their count in the lead byte and decode back to the character |
| `Text.EncodeCharInjective` | src/filesystem/repository.rs:43 | distinct characters have distinct UTF-8 encodings |
| `Text.Utf8Injective` | src/filesystem/repository.rs:43 | `as_bytes` loses nothing: equal bytes only from equal strings |
| `Identity.UuidToString` | src/filesystem/repository.rs:43 | a UUID displays as 36 characters |
| `Identity.UuidGroups` | src/filesystem/repository.rs:43 | the display is the hex of bytes 0-3, 4-5, 6-7, 8-9 and 10-15, with hyphens at positions 8, 13, 18 and 23 |
| `Identity.UuidShape` | src/filesystem/repository.rs:43 | the display has no colon, and every position but the hyphens is a lowercase hex digit |
| `Identity.UuidToStringInjective` | src/filesystem/repository.rs:43 | distinct UUIDs display differently |
| `Identity.SignPreimage` | src/filesystem/repository.rs:42-44 | the text before the preimage's first colon is the UUID's display |
| `Identity.SignPreimageParts` | src/filesystem/repository.rs:43 | the preimage is 36 UUID characters, a colon at position 36, then `name ":" payload` |
| `Identity.Sign` | src/filesystem/repository.rs:42-44 | the digest is the hash of the UUID's bytes, 0x3A, the name's bytes, 0x3A, the payload's bytes |
| `Identity.SignPreimageBytes` | src/filesystem/repository.rs:43 | the preimage's UTF-8 bytes are the parts' bytes with single colons between |
| `Identity.UuidBytes` | src/filesystem/repository.rs:43 | the UUID part of the preimage is 36 bytes |
| `Identity.PreimageDeterminesUuid` | src/filesystem/repository.rs:43 | equal preimages come from equal UUIDs |
| `Identity.PreimageUnambiguous` | src/filesystem/repository.rs:43 | for colon-free names, equal preimages mean equal names and payloads |
| `Identity.PreimageAmbiguousAcrossColon` | src/filesystem/repository.rs:43 | `(n:m, p)` and `(n, m:p)` give the same preimage and the same sign under every hash |
| `Identity.NewRepositoryID` | src/filesystem/repository.rs:25-33 | the record keeps the UUID and the name verbatim; its sign is 64 lowercase hex digits that decode to `sign(uuid, name, payload)` |
| `Identity.NewVerifies` | src/filesystem/repository.rs:25-44 | a new identity verifies against its own payload |
| `Identity.PreimageBytesDeterminePayload` | src/filesystem/repository.rs:43 | with UUID and name fixed, a different payload gives different bytes to hash |
| `Identity.PreimageBytesDetermineName` | src/filesystem/repository.rs:43 | with UUID and payload fixed, a different name gives different bytes to hash, even if names hold colons |
| `Identity.PreimageBytesDetermineUuid` | src/filesystem/repository.rs:43 | a different UUID gives different bytes to hash, whatever the names and payloads |
| `Identity.WrongPayloadRejected` | src/filesystem/repository.rs:25-44 | any payload other than the original fails to verify, assuming only that `hash` does not collide on the two preimages |
| `Identity.RenamedIdentityRejected` | src/filesystem/repository.rs:25-44 | an identity with any other name fails to verify against the original payload, assuming only that `hash` does not collide on the two preimages |
| `Identity.ReassignedIdentityRejected` | src/filesystem/repository.rs:25-44 | an identity with any other UUID fails to verify against the original payload, under the same assumption |
| `Identity.PayloadNotRetained` | src/filesystem/repository.rs:17-31 | the record holds only UUID, name and sign: payloads with equal digests give equal records |
| `Catalog.Apply` | src/filesystem/repository.rs:70-90 | an unguarded `CREATE TABLE` fails exactly when the table exists, a malformed one always fails, failures change nothing, a creation leaves its table present |
| `Catalog.Script` | src/filesystem/repository.rs:69-91 | the script is five statements, one per entry of `sql_script`; what they do is stated by `ScriptOnEmptyDatabase`: entry two (the `main_catalog` table, whose `VARCHAR(` at line 74 is never closed) is malformed, and entry three repeats `storage_unit` without a guard (line 77) |
| `Catalog.RunScriptAddsNamed` | src/filesystem/repository.rs:92-94 | a script leaves the old tables plus those its `CREATE TABLE`s name |
| `Catalog.RunScriptTwice` | src/filesystem/repository.rs:92-94 | running the script again leaves the same catalog |
| `Catalog.GuardedCreateIdempotent` | src/filesystem/repository.rs:81-90 | repeating an `IF NOT EXISTS` creation succeeds and changes nothing more |
| `Catalog.UnguardedCreateFailsOnRepeat` | src/filesystem/repository.rs:70 | repeating an unguarded creation fails with "already exists" |
| `Catalog.ScriptOnEmptyDatabase` | src/filesystem/repository.rs:69-96 | from an empty database: tables `storage_unit`, `queue`, `parameter`, no `main_catalog`; the answers are Ok, syntax error, already exists, Ok, Ok |
| `Catalog.ScriptRerunFails` | src/filesystem/repository.rs:69-94 | on a database the script already ran on, the first statement fails |
| `Catalog.ResultsPrefix` | src/filesystem/repository.rs:92-94 | the answers to a prefix of the script are a prefix of its answers |
| `Catalog.Connection.Execute` | src/filesystem/repository.rs:62 | the answer and the new catalog are those of `Apply`; the statement is appended to the log |
| `Catalog.Connect` | src/filesystem/repository.rs:99-105 | `Ok(c)` gives `Some(c)`; an error gives `None` |
| `Catalog.LiftDbResult` | src/filesystem/repository.rs:61-66 | `Ok(n)` stays `Ok(n)`; an error becomes a `Db` error with an empty message and the database text as cause |
| `Catalog.ExecuteErrorDisplay` | src/filesystem/repository.rs:64 | a failed statement renders `database error:  (cause)`, with two spaces |
| `Catalog.RepositoryDB.constructor` | src/filesystem/repository.rs:54-59 | the handle is the open result's `.ok()`; a failed open leaves `None` |
| `Catalog.RepositoryDB.Execute` | src/filesystem/repository.rs:61-66 | needs a connection; returns the lifted answer and updates the catalog and log |
| `Catalog.RepositoryDB.Create` | src/filesystem/repository.rs:68-97 | submits the five statements once each, in order, ignores their answers, and returns `Ok(())`; the catalog is the script's result |
| `Repositories.JoinShape` | src/filesystem/repository.rs:37 | the joined path ends with the file name and, for a relative name, starts with the directory |
| `Repositories.Join` | src/filesystem/repository.rs:37 | the joined path is no shorter than the file name and at most one separator longer than directory and name together; its shape is stated by `JoinShape` |
| `Repositories.MarkerAndDatabaseDiffer` | src/filesystem/repository.rs:12-13 | the marker and the database are different paths in every directory |
| `Repositories.Host.Open` | src/filesystem/repository.rs:57 | an open records its step; it succeeds exactly off the unopenable paths, with a fresh connection on the file's tables |
| `Repositories.Host.Write` | src/filesystem/repository.rs:37-39 | a marker write records its step and, when the path is writable, overwrites any earlier marker |
| `Repositories.CreateRepository` | src/filesystem/repository.rs:116-126 | steps in order identity, open, marker, schema; panics on a failed write or a missing connection; otherwise returns the repository with the given path, the new identity, and the script run once |

## Left out

- UUID generation: `Uuid::new_v4` is random, so the UUID is a parameter. Uniqueness across calls cannot be stated.
- BLAKE3: its internals are not modelled. `hash` is any function returning 32 bytes, and collision resistance appears only as a hypothesis of `WrongPayloadRejected`, `RenamedIdentityRejected` and `ReassignedIdentityRejected`, each about the one pair of preimages it compares.
- `RepositoryID::serialize`: JSON pretty-printing, `File::create` and the `unwrap`s are I/O. What is left is `Host.Write`, which stores the record and fails on the given paths. A failure after `File::create` has emptied an existing marker, when `writeln!` fails, is not modelled: in the model a failed write leaves the marker as it was.
- SQL parsing and execution: column types, defaults, timestamps and rows are not modelled. Each statement is reduced to its effect on the set of tables.
- The `params` argument of `execute`: every call in the core passes `[]`, so it is not modelled.
- The texts of foreign errors: `rusqlite`, `io`, `serde_json` and the others are opaque strings. The texts `Host` and `Apply` produce stand for any message.
- Persistence of the catalog: a connection's tables are not written back to the `Host`, so a second `Open` of the same file sees the tables given when the `Host` was made.
- `format!` beyond `{}` holes and the `{{` / `}}` escapes: positional, named and formatted holes such as `{0}` or `{:?}` are not modelled.
- `from_error`'s generic `Into<InternalError>`: the conversion is applied at the call site with one of the `From*` functions.
- `REPO_FORMAT_VERSION` and the `RepositoryDB.name` field: neither has any behaviour.
- `src/error.rs`: a placeholder error with one constant message. It is not part of this model.

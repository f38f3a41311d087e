# Upload handler of the file storage service

This project models the `POST /upload` route of a small Express file
storage service (`index.js`, lines 20-52) and proves properties of the model.
A client sends a folder path and one file. The handler works in six steps:

1. It refuses a missing or empty folder path with 400 "Folder path is required".
2. It refuses a missing file with 400 "No file uploaded".
3. It creates `uploads/<folderPath>` recursively.
4. If something already exists at `uploads/<folderPath>/<originalname>`, it
   renames to `<stem>-<nanoid><ext>`. Here `<ext>` is `path.extname` of the
   name: the dot and what follows it, or empty. So `README` becomes
   `README-<nanoid>` and `.profile` becomes `.profile-<nanoid>`.
5. It writes the bytes.
6. It answers with
   `<protocol>://<host>/uploads/<folderPath>/<finalFileName>`.

Any error thrown along the way reaches the route's error handler, which
answers 400 with the error's message.

Modules:

- `Wrappers` (`wrappers.dfy`): `Option` and `Result`.
- `NodePath` (`node_path.dfy`): the parts of Node's POSIX `path` module the
  handler uses, as pure functions: `path.extname` (`ExtName`),
  `path.basename(name, ext)` (`BaseName`) and the stem they give together
  (`Stem`). Beside them is `Parent`, the directory a file path lies in,
  which the filesystem model uses. `ExtName` and `Parent` rest on
  `LastIndexOf`, a recursive search whose contract characterises the last
  occurrence. A file name is the type `FileName`: a string without `/`.
- `FileStore` (`file_store.dfy`): the uploads tree as a value, `Store`. It
  holds a set of directory paths and a map from file paths to bytes, all
  relative to the uploads root. Beside it are specification functions for
  the three `fs` calls: `existsSync` (`Exists`),
  `mkdirSync(…, { recursive: true })` (`Mkdir`) and `writeFileSync`
  (`WriteFile`). Each call fails the way the filesystem would: a file in
  the way of a directory, or a directory in the way of a file. The module
  also defines the tree invariant `Valid`: no path is both a file and a
  directory, every ancestor of a directory is a directory, and every file
  sits in a directory.
- `UploadService` (`upload_service.dfy`): the request and response types and
  the collision name (`CollisionName`). It has the URL (`UploadUrl`) and its
  inverse, the file path the static server maps a URL to (`StaticPath`).
  `Handle` is the handler as a function of the tree before the request. The
  class `Disk` has fields `dirs` and `files`. Its methods `MkdirSync` and
  `WriteFileSync` change them in place. Its method `Upload` is the route
  itself, written step by step as the source is, with the reassigned
  `finalFileName`. `Upload` is proved to produce exactly the tree and the
  response that `Handle` gives. The lemmas beside it state the route's
  properties.
- `Findings` (`findings.dfy`): the collision bug described below. It proves
  what the handler as written (`Handle`) does after a collision, and gives a
  worked example proved on the model that shows the bug. It also defines the
  corrected handler `HandleIntended` and proves its round trip.

The service's documented intent differs from this code in several places.
The model follows the code:

- By intent, a colliding upload never overwrites. The code overwrites (see
  Findings).
- The documented intent includes a name sanitizer, a delete endpoint,
  permission bits 0775/0664 and a check that the folder path stays inside
  the storage root. None of these is in the code.
- By intent, filesystem errors are reported as 500. The route's error
  handler answers 400 (`index.js:50-51`).
- By intent, an upload needs a non-empty file. The code accepts an empty
  buffer.
- The intended success response has five fields. The code answers
  `{ imageUrl }` only.

## Model

| member | source | states |
|---|---|---|
| `NodePath.ExtName` | index.js:38 | The extension is empty exactly when the name has no dot after its first character or is `..`. Otherwise it is a proper suffix of the name that starts with its only dot. |
| `NodePath.BaseName` | index.js:39 | The base is the whole name, or the name with the suffix removed. It is the latter whenever the name ends with the suffix. |
| `NodePath.Stem` | index.js:38-39 | The stem is a prefix of the name, and the whole name when there is no extension. `NodePath.StemExtRoundTrip` states that stem and extension together give back the name. |
| `NodePath.StemExtRoundTrip` | index.js:38-39 | Stem followed by extension gives back the name. A name with an extension has a non-empty stem. |
| `NodePath.ParentOfChild` | index.js:35 | The file path `folder/name` lies directly in `folder`. |
| `FileStore.FsError.Message` | index.js:51 | The message of every filesystem error ends with `uploads/`, the path and a closing quote. |
| `FileStore.Exists` | index.js:37 | `existsSync` is true for a directory and for a file alike. |
| `FileStore.Mkdir` | index.js:32 | Recursive mkdir: on success the folder exists, no directory disappears and no file changes; an error names the folder and happens only when a file stands at it or at an ancestor. `FileStore.MkdirSpec` and `FileStore.MkdirIdempotent` state the rest. |
| `FileStore.WriteFile` | index.js:43 | `writeFileSync`: on success the path holds the bytes and the directories are unchanged; an error names the path and happens only when the path is a directory or its parent is missing. `FileStore.WriteFileSpec` states the rest. |
| `FileStore.MkdirSpec` | index.js:31-32 | Recursive mkdir fails exactly when a file stands at the folder or at one of its ancestors. On success the directories are exactly the old ones plus the folder and all its ancestors, no file changes and the tree invariant holds. |
| `FileStore.MkdirIdempotent` | index.js:32 | On a valid tree, creating an existing directory succeeds and changes nothing. |
| `FileStore.WriteFileSpec` | index.js:43 | The write fails exactly when the path is a directory or its parent is missing. On success the path holds exactly the bytes, no other file or directory changes, and the invariant holds. |
| `UploadService.CollisionName` | index.js:40 | The collision name is longer than the original name. |
| `UploadService.CollisionNameShape` | index.js:37-41 | The collision name differs from the original. It starts with the stem and `-` and ends with the original extension. For any name but `..`, that extension and the stem plus `-` plus token are its own `extname` and stem. |
| `UploadService.FinalName` | index.js:34-41 | The final name is the original name exactly when nothing exists at the original path. `UploadService.CollisionNameShape` and `UploadService.UploadFinalName` state the rest. |
| `UploadService.UploadUrl` | index.js:45 | The URL ends with `/` and the file name. `UploadService.UrlResolvesToFilePath` and `UploadService.UrlLastSegment` state its round trip. |
| `UploadService.StaticPath` | index.js:45-54 | A URL the static server resolves is the origin, `/uploads/`, then the path it resolves to. |
| `UploadService.UrlResolvesToFilePath` | index.js:45 | Every returned URL resolves to the file path `folder/name` it was built from. |
| `UploadService.UrlLastSegment` | index.js:45 | The last `/` segment of a returned URL is the file name it was built from. |
| `UploadService.Handle` | index.js:20-52 | Every response is 200 or 400, and 200 exactly when it carries a URL. A request that fails validation changes nothing. The lemmas from `UploadService.MissingFolderRejected` to `UploadService.FailedUploadWritesNothing` state the rest. |
| `UploadService.MissingFolderRejected` | index.js:22-25 | A missing or empty folder path gives 400 "Folder path is required" whatever the file. The tree is unchanged. |
| `UploadService.MissingFileRejected` | index.js:27-29 | A folder path with no file gives 400 "No file uploaded". The tree is unchanged. |
| `UploadService.ExistsAfterMkdir` | index.js:32-37 | Creating the folder never creates an entry at the file's path. So the collision check sees the tree as it was before the request. |
| `UploadService.UploadCreatesFolder` | index.js:31-32 | Once validation passes and no file blocks the folder, the directories afterwards are exactly the old ones plus the folder and its ancestors, even if the write fails. An existing folder leaves the directories unchanged. |
| `UploadService.WriteAfterMkdirIff` | index.js:32-43 | Right after the folder is created, writing a file into it fails exactly when that file's path is a directory. |
| `UploadService.UploadSucceedsIff` | index.js:20-52 | A request gets 200 exactly when both checks pass, no file blocks the folder or its ancestors, and the file's path is not a directory. |
| `UploadService.UploadWritesOriginalPath` | index.js:35-43 | After a 200, the path built from the original name holds exactly the uploaded bytes, replacing any earlier content. No other file changes or appears. |
| `UploadService.UploadFinalName` | index.js:34-41 | After a 200, the URL carries the original name when nothing existed at its path. Otherwise it carries the collision name. |
| `UploadService.UrlNamesWrittenFileIffNoPriorEntry` | index.js:40-45 | After a 200, the URL's last segment is the name of the file written exactly when nothing existed at that path before. |
| `UploadService.FailuresAre400` | index.js:47-51 | Every response is 200 or 400, and 400 exactly when the body is a message. That message is one of the two validation messages, or the message of the mkdir or write error that occurred. |
| `UploadService.HandlePreservesValid` | index.js:31-43 | Every request, successful or not, keeps the tree invariant. |
| `UploadService.FailedUploadWritesNothing` | index.js:31-51 | A request answered 400 leaves every file as it was. A request refused by validation, or whose mkdir fails, leaves the whole tree as it was. |
| `UploadService.Disk.MkdirSync` | index.js:32 | The in-place mkdir leaves the fields equal to the tree `Mkdir` gives, or unchanged with the error it reports. |
| `UploadService.Disk.ExistsSync` | index.js:37 | The in-place `existsSync` is `Exists` of the fields: true for a directory and for a file alike. |
| `UploadService.Disk.WriteFileSync` | index.js:43 | The in-place write leaves the fields equal to the tree `WriteFile` gives, or unchanged with the error it reports. |
| `UploadService.Disk.Upload` | index.js:20-52 | The route leaves the filesystem in the tree `Handle` gives and returns its response. The tree invariant is kept. |
| `Findings.CollisionOverwritesAndDangles` | index.js:35-45 | As written, take a file at the original path, nothing at the renamed path, and no file blocking the folder. The upload succeeds and replaces the earlier content, and the returned URL resolves to a path that holds no file. |
| `Findings.OverwriteExample` | index.js:34-45 | Take `docs/a.txt` holding `[1]` and upload `a.txt` with `[2]` and token `T`. The answer is 200 with the URL of `docs/a-T.txt`. `docs/a.txt` now holds `[2]` and `docs/a-T.txt` does not exist. |
| `Findings.HandleIntended` | index.js:20-52 | The corrected handler answers 200 or 400, and 200 exactly when it carries a URL. A request that fails validation changes nothing. After a 200 the file under the final name exists. `Findings.IntendedRoundTripNoOverwrite` states the rest. |
| `Findings.IntendedRoundTripNoOverwrite` | index.js:34-45 | In the corrected handler, after a 200 the returned URL resolves to a file holding exactly the uploaded bytes. When nothing existed at the original path, or the renamed path is free, no earlier file changes. The tree invariant holds. |

## Findings

| source | as written | input that shows it | evidently intended | confidence | as-written member | corrected member |
|---|---|---|---|---|---|---|
| index.js:43 | After a collision the bytes go to `filePath`, the path built from the original name at line 35. The earlier file is overwritten, and the URL built at line 45 names `finalFileName`, a file never written. | `docs/a.txt` exists; upload `a.txt` to folder `docs` with token `T`. | Write to `folder/finalFileName`, so that nothing is overwritten and the URL serves the uploaded bytes. | high; not executed | `Findings.OverwriteExample` | `Findings.IntendedRoundTripNoOverwrite` |

`Disk.Upload` and `Handle` model the code as written. The corrected handler
is `Findings.HandleIntended`, which writes under the final name.
`Findings.IntendedRoundTripNoOverwrite` proves the intended properties about
it.

## Left out

- Express setup, the JSON and urlencoded middleware, the static file server
  and `listen` (`index.js:11-15`, `index.js:54-55`) are not modelled. The
  static server appears only as `StaticPath`, the file path a URL of this
  origin maps to. The handler builds the URL without encoding.
- `StaticPath` treats everything after `/uploads/` as the path. It does not
  cut the URL at `?` or `#`, and it does no percent-decoding. A real server
  does both: the URL for `a#1.png` in `docs` resolves to `docs/a`. Nor
  does it refuse dotfiles: by default the static server answers 404 for a
  URL whose last segment begins with `.` (on Express 5, any segment), so
  the URL for `.env` in `docs` is never served, while `StaticPath` resolves
  it to `docs/.env`.
- `UploadService.UrlResolvesToFilePath` and
  `Findings.IntendedRoundTripNoOverwrite`: the URL round trip holds in the
  real service only for folder paths and file names without `?`, `#` or `%`,
  and only for a final name that does not begin with `.` (on Express 5, no
  folder segment may begin with `.` either). A last segment beginning with
  `.` is answered 404 by the static server's default dotfile handling; this
  includes collision names such as `.profile-<token>`.
- Multer's multipart parsing (`index.js:17-18`) is not modelled. `req.file` is
  an optional record of the original name and the bytes. `req.body.folderPath`
  is an optional string; a repeated field, which multer turns into an array,
  is not modelled. Multer errors, which also reach the error handler, are not
  modelled either.
- `FileName`: names contain no `/`, because the multipart parser strips
  directory parts by default. The model accepts the names `""`, `.` and `..`
  and treats them as ordinary names. They never reach the real handler: the
  parser's basename turns `.` and `..` into `""`, and multer skips a file
  part with an empty name, so the source answers 400 "No file uploaded" for
  all three.
- `nanoid()` (`index.js:5`, `index.js:40`) is the `token` parameter. Only its
  URL-safe alphabet is modelled (type `Token`), not its length or
  uniqueness.
- Paths are plain strings relative to the uploads root: the directory is
  the folder path as sent, and a file is `folder + "/" + name`. `path.join`
  normalisation is not modelled. `a//b`, `a/./b`, `a/../b`, a leading or
  trailing `/` are not identified with their normal forms. As in the code,
  nothing keeps the folder path inside the uploads root.
- The only filesystem failures modelled are EEXIST and ENOTDIR for mkdir
  and EISDIR and ENOENT for write. The last one cannot happen in the
  handler, since the folder was just created. Permission errors and a full
  disk are not modelled. Neither are two failures a client can cause: a NUL
  byte in the folder path or the file name (`ERR_INVALID_ARG_VALUE`), and a
  file name over 255 bytes (`ENAMETOOLONG`). The source answers 400 for
  both, while the model answers 200. Error messages omit the absolute
  `__dirname` prefix Node puts in front of the path.
- `UploadService.UploadSucceedsIff`: its "exactly when" holds in the real
  service only for folder paths and file names without a NUL byte and for
  names of at most 255 bytes, and only if no unmodelled filesystem failure
  occurs.
- `req.get('host')` is a given string. A missing Host header, which would
  produce the text `undefined`, is not modelled.
- Concurrency is not modelled. The handler is synchronous, so each request
  is one sequential state transition.
- `ecosystem.config.js` is a process-supervision configuration with no logic
  and is not modelled.

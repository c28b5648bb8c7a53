# Media uploader: a Dafny model of folder allocation, ingestion and file selection

The media uploader lets visitors share photos and videos. The browser
component keeps a list of picked files. It drops re-picks of a file already
in the list, lets the visitor remove an entry, and builds a form that holds a
display name and the files. The server's `POST /upload` handler does four
things:

1. It makes sure the upload root exists.
2. It allocates a folder for the submission that no earlier upload uses:
   the display name first, then `name(1)`, `name(2)`, and so on.
3. It writes every file into that folder under its original name.
4. It answers with the number of files, in Polish.

The repository has two versions of the handler:

- `server/index.js` first rejects a request with a 400 when any part is not
  an image or a video.
- `server.js` has no such gate.

This project models both handlers, the folder allocator and the three
client callbacks. It also proves what they guarantee.

Modules, one per file:

- `Optional` (`optional.dfy`): the `Option` type.
- `Decimal` (`decimal.dfy`): how a JavaScript template literal renders a
  counter (`NatToString`), and a parser that inverts it. Together they give
  the suffix round trip and injectivity.
- `JsBuiltins` (`js_builtins.dfy`): `startsWith`; `trim` with the
  ECMAScript whitespace and line-terminator set; `Array.prototype.slice`
  with negative and out-of-range indices.
- `FolderAllocator` (`folder_allocator.dfy`): `createUniqueFolder` over the
  set of names already present in the base directory. It is given both as
  the source's loop (a method) and as the least-free-suffix function the
  handlers use.
- `FileStore` (`file_store.dfy`): the filesystem as a set of directories
  plus a map from file paths to bytes. A path is its sequence of segments.
  The module models `fs.access`, `fs.mkdir` with `recursive: true`, and
  `fs.writeFile`. `Valid` states that every entry hangs under a directory
  and that no path is both a file and a directory.
- `UploadServer` (`upload_server.dfy`): the two `/upload` handlers.
  - Disk operations can fail for reasons the program cannot see, such as
    permissions or a full disk. These failures are an oracle: a set of
    steps at which the disk refuses (creating the root, creating the
    folder, the `i`-th write).
  - The response is `Ok(count)`, `BadRequest` or `ServerError`, with the
    status codes and the exact message texts.
- `MediaUploader` (`media_uploader.dfy`): `handleFilesChange`,
  `handleRemoveFile` and `handleSubmit` as pure functions of the held list.

Edge cases of the code that the model keeps:

- **Empty file list.** The handlers accept a request with no files: a
  named request creates an empty folder and answers `Ok(0)`. Only the
  client refuses to submit an empty list.
- **Name fallback.** Only the client substitutes `Anonim`. A server
  request without a `name` field throws when the folder path is built.
  That happens after the root exists, and the answer is a 500.
- **MIME filtering.** `handleFilesChange` does not check the type. The
  file input only asks the picker for `image/*,video/*` (its `accept`
  attribute), and the browser does not enforce that, so a non-media file
  can still be picked. Only `server/index.js` gates on it; `server.js`
  stores parts of any type.

Two parts with the same original name in one request overwrite each other
in write order. The answer still reports the number of parts.
`WrittenInOrder` states this: each target holds the bytes of the last part
with that name.

## Model

| member | source | states |
|---|---|---|
| Decimal.ParseNatToString | server/index.js:28 | the decimal text a counter is rendered to in a folder suffix reads back as the same counter |
| Decimal.NatToStringInjective | server/index.js:28 | two different counters never render to the same suffix text |
| FolderAllocator.CandidatesDistinct | server/index.js:23-29 | the names tried, `name`, `name(1)`, `name(2)`, ..., are pairwise different, so each retry probes a new path |
| FolderAllocator.FirstFree | server.js:18-31 | the attempt the allocator settles on is free and every earlier attempt is taken (it is the least free suffix) |
| FolderAllocator.CreateUniqueFolder | server/index.js:22-35 | the probing loop ends on a name not yet present, adds exactly that name, returns `name` itself when it was free, and the result is the least free candidate |
| FolderAllocator.SequentialAllocations | server/index.js:22-35 | with `name` .. `name(n-1)` free, n successive allocations return exactly those names in order, all different, and claim nothing else |
| FolderAllocator.NextAllocation | server.js:18-31 | once attempts 0 .. m-1 are taken and attempt m is free, the next call returns attempt m |
| FileStore.ChildrenExist | server/index.js:27 | a name is among the entries of the base directory exactly when `fs.access` of base/name succeeds, for a directory or a file alike |
| FileStore.MakeDirectoryValid | server/index.js:47 | a successful recursive mkdir keeps the store well formed, makes the path a directory, and leaves files and existing directories alone |
| FileStore.MakeDirectoryUnderDir | server/index.js:31 | creating a free path whose parent is a directory adds exactly that one directory |
| FileStore.MakeDirectoryOnDir | server/index.js:47 | a recursive mkdir of an existing directory succeeds and changes nothing |
| FileStore.WriteFileValid | server/index.js:54 | writing a file keeps the store well formed, stores the given bytes at that path, creates or removes no other entry, and leaves every other file's bytes as they were |
| UploadServer.HandleUpload | server/index.js:37-61 | the answer is 400 exactly when some part is not an image or a video, and then nothing on disk changes; media-only requests are handled exactly as server.js handles them; a 200 reports the number of parts and needs a name |
| UploadServer.HandleUploadUngated | server.js:33-54 | the handler without the gate never answers 400; a 200 reports the number of parts and needs a name |
| UploadServer.FirstFault | server/index.js:51-55 | the loop stops at the first refused write: every earlier write is accepted and the stopping index is refused |
| UploadServer.EnsureRootSpec | server/index.js:44-48 | the root is created, with its missing ancestors, only when nothing is at its path; this fails only on a disk fault or a file in the way; it adds no entry inside the root |
| UploadServer.AllocateFolderSpec | server/index.js:49 | the folder is the first free candidate under the root, every earlier candidate is occupied, a free `name` is used as is, and creating it adds exactly that directory unless the disk refuses |
| UploadServer.WriteFromOutcome | server/index.js:51-56 | the write loop creates no directory and reports success exactly when no write was refused |
| UploadServer.WriteFromContents | server/index.js:51-55 | the files after the loop are the files before with the parts up to the first refused write laid down one after another |
| UploadServer.OverlayWrittenInOrder | server/index.js:51-55 | laying parts down in order leaves each target with the bytes of the last part of that name and every other file unchanged |
| UploadServer.WriteFromValid | server/index.js:51-55 | the write loop keeps the store well formed, whatever it writes or fails on |
| UploadServer.IngestOutcome | server.js:33-54 | for a named request of parts of any type with a usable root: the folder did not exist; exactly it (and the root) is created; the parts up to the first refused write are stored in order; the answer is `Ok(count)` when none was refused and 500 otherwise |
| UploadServer.UploadOutcome | server/index.js:37-61 | for a named media-only request with a usable root: the folder did not exist; exactly it (and the root) is created; the parts up to the first refused write are stored in order; the answer is `Ok(count)` when none was refused and 500 otherwise |
| UploadServer.IngestEarlyFailures | server/index.js:44-60 | the 500s that come before any write: the root cannot be created (nothing changes); no name (the root exists afterwards); the folder cannot be created; the root is a file |
| UploadServer.IngestValid | server.js:33-54 | every answer of the handler, error or not, leaves the store well formed (and so of the gated handler, which either changes nothing or does the same) |
| UploadServer.UngatedIgnoresMime | server.js:33-54 | without the gate the outcome depends on the name, the file names and the bytes, never on the declared MIME types |
| UploadServer.RepeatedNameGetsNewFolder | server/index.js:49 | after a successful upload under a name, the next upload under that name gets a different folder, and when `name` and `name(1)` were free they are `name` then `name(1)` |
| JsBuiltins.Trim | src/components/MediaUploader.tsx:39 | the trimmed name is an infix of the input, everything cut from either end is whitespace, it neither starts nor ends with whitespace, and it is empty exactly when the input is all whitespace |
| JsBuiltins.TrimIdempotent | src/components/MediaUploader.tsx:39 | trimming an already trimmed name changes nothing |
| MediaUploader.NotHeldCounts | src/components/MediaUploader.tsx:17-22 | the filter drops every pick already held (same name and modification time) and keeps every other pick exactly as often as it was picked |
| MediaUploader.NotHeldConcat | src/components/MediaUploader.tsx:17-22 | filtering two batches one after the other gives the filtered concatenation: the filter keeps order |
| MediaUploader.SelectFiles | src/components/MediaUploader.tsx:13-27 | the held list stays first and untouched; what is appended is the picks not already held, in the order they were picked (so each as often as it was picked); no file list leaves the list unchanged |
| MediaUploader.SelectAllHeldUnchanged | src/components/MediaUploader.tsx:23 | a pick leaves the list unchanged exactly when every picked file is already held |
| MediaUploader.SelectIdempotent | src/components/MediaUploader.tsx:13-27 | picking the same batch a second time adds nothing |
| MediaUploader.RemoveAt | src/components/MediaUploader.tsx:29-32 | for an index in range, the list loses exactly that entry and keeps the others in order; an index at or past the end, or before `-length`, changes nothing |
| MediaUploader.RemoveThenReinsert | src/components/MediaUploader.tsx:30 | putting the removed entry back at its index restores the original list |
| MediaUploader.RemoveNegativeIndex | src/components/MediaUploader.tsx:30 | an index from -2 down to `-length` removes the entry that many places from the end, as `slice` counts |
| MediaUploader.RemoveMinusOne | src/components/MediaUploader.tsx:30 | index -1 does not remove the last entry: the list becomes all but the last entry followed by the whole list again |
| MediaUploader.SubmittedName | src/components/MediaUploader.tsx:39 | the submitted name is never empty and never starts or ends with whitespace; an all-whitespace name becomes `Anonim`; any other name is sent trimmed |
| MediaUploader.Submit | src/components/MediaUploader.tsx:34-44 | nothing is submitted exactly when no file is held; otherwise the form has one entry for the name and one per file |
| MediaUploader.SubmitReadBack | src/components/MediaUploader.tsx:38-40 | reading the form back by key gives the submitted name under `name` and the i-th held file under `files[i]`, for every i: no key is used twice |

## Left out

- Concurrency is not modelled; the model runs requests one at a time. Two
  simultaneous requests with the same name can both find the folder
  missing. Because a recursive mkdir does not fail on an existing
  directory, both would then write into one folder.
- Path normalisation by `path.join` is not modelled. The display name and
  every original file name are taken as single path segments. Names with
  separators, `.`, `..` or the empty string, and so path traversal, are
  outside the model.
- The Express, multer, cors and dotenv plumbing is not modelled: static
  serving, the catch-all route, `listen`, and how `PORT` and `UPLOAD_DIR`
  are read. The upload root is a parameter.
- A request that is not multipart is not modelled. There `req.body` is
  undefined and the handler answers 500 before touching the disk.
- Multer's rejection of unexpected field names is not modelled. The client
  builds `files[i]` keys while the server accepts the field `files`. Express
  answers that mismatch outside the handler.
- Why the disk refuses an operation is not modelled: it is the `faults`
  oracle. Only a file in the way of a directory, or a directory in the way
  of a file, is decided by the store itself.
- A refused step is taken to leave the store untouched, but the real calls
  are not atomic. `fs.writeFile` creates or truncates its target before
  writing, so a refused write can leave an empty or partial file at
  `folder/originalname`. A recursive `fs.mkdir` creates missing ancestors
  one at a time, so a refusal partway can leave some of them behind.
- UploadServer.IngestEarlyFailures: "nothing changes" after a refused root
  creation holds only because a refused step is taken to be atomic.
- UploadServer.IngestOutcome: the exact file map after a refused write holds
  only because a refused write is taken to leave nothing at its target.
- UploadServer.UploadOutcome: as for UploadServer.IngestOutcome.
- MediaUploader.SelectFiles: the source filters the picks against the list captured when
  the callback was created and appends them to the list current at the
  update. The model uses one list for both, so it assumes each change event
  comes after the re-render of the previous one.
- `console.log` and `console.error` are not modelled. The client's
  `preventDefault` and the input reset `e.target.value = ''` are not
  modelled either. The form built by `handleSubmit` is only logged in this
  variant, so the model returns it instead.
- The React rendering, hooks, dialogs, `FilePreview`,
  `LinearProgressWithLabel` (floating point) and `main.tsx` are not part
  of this model.
- Decimal.ParseNatToString: number rendering covers the plain decimal form
  only. JavaScript switches to exponent notation at 1e21, which no folder
  counter or file count can reach.

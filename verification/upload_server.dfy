/** The two `/upload` handlers: the one in server/index.js, which rejects
    non-media files before touching the disk, and the one in server.js,
    which has no such gate. Both create the upload root when it is absent,
    allocate one fresh folder for the submission and write the files into it
    in order. Disk failures the model cannot predict (permissions, a full
    disk) are an oracle `faults`: the steps at which the disk refuses. */
module UploadServer {
  import opened Optional
  import opened Decimal
  import opened JsBuiltins
  import opened FileStore
  import opened FolderAllocator

  /** One file part as multer hands it over from memory storage. */
  datatype FilePart = FilePart(originalname: string, mimetype: string, buffer: Bytes)

  /** `req.body.name` (absent when the form carries no `name` field) and `req.files`. */
  datatype Request = Request(name: Option<string>, files: seq<FilePart>)

  datatype Response = Ok(count: nat) | BadRequest | ServerError {
    function Status(): nat {
      match this
      case Ok(_) => 200
      case BadRequest => 400
      case ServerError => 500
    }

    /** The `message` (success) or `error` text of the JSON body. */
    function Text(): string {
      match this
      case Ok(n) => "Liczba przesłanych plików: " + NatToString(n) + "."
      case BadRequest => "Dozwolone są tylko zdjęcia i filmy."
      case ServerError => "Coś poszło nie tak podczas przesyłania plików."
    }
  }

  /** The disk operations that can fail for reasons outside the model. */
  datatype Step = CreateRoot | CreateFolder | WriteAt(index: nat)

  predicate IsMedia(mimetype: string) {
    StartsWith(mimetype, "image/") || StartsWith(mimetype, "video/")
  }

  predicate AllMedia(parts: seq<FilePart>) {
    forall i :: 0 <= i < |parts| ==> IsMedia(parts[i].mimetype)
  }

  /** Probe the upload root; create it, with any missing ancestors, only if nothing is there. */
  function EnsureRoot(s: Store, root: Path, faults: set<Step>): (r: Option<Store>)
    ensures Exists(s, root) ==> r == Some(s)
  {
    if Exists(s, root) then Some(s)
    else if CreateRoot in faults then None
    else MakeDirectory(s, root)
  }

  /** The folder `createUniqueFolder(base, name)` settles on. */
  function FolderFor(s: Store, base: Path, name: string): Path {
    base + [Candidate(name, FirstFree(Children(s, base), name))]
  }

  /** `createUniqueFolder(base, name)`: the new store and the folder path. */
  function AllocateFolder(s: Store, base: Path, name: string, faults: set<Step>): Option<(Store, Path)> {
    var folder := FolderFor(s, base, name);
    if CreateFolder in faults then None
    else match MakeDirectory(s, folder)
      case None => None
      case Some(s') => Some((s', folder))
  }

  /** The first index in `[i, n)` at which the disk refuses a write, or `n`. */
  function FirstFault(faults: set<Step>, i: nat, n: nat): (e: nat)
    requires i <= n
    ensures i <= e <= n
    ensures forall j :: i <= j < e ==> WriteAt(j) !in faults
    ensures e < n ==> WriteAt(e) in faults
    decreases n - i
  {
    if i == n || WriteAt(i) in faults then i else FirstFault(faults, i + 1, n)
  }

  /** The write loop from index `i` on: each part goes to
      `folder/originalname`; the first failure ends the loop and keeps what
      was already written. */
  function WriteFrom(s: Store, folder: Path, parts: seq<FilePart>, i: nat, faults: set<Step>): (Store, bool)
    requires i <= |parts|
    decreases |parts| - i
  {
    if i == |parts| then (s, true)
    else if WriteAt(i) in faults then (s, false)
    else match WriteFile(s, folder + [parts[i].originalname], parts[i].buffer)
      case None => (s, false)
      case Some(s') => WriteFrom(s', folder, parts, i + 1, faults)
  }

  /** Everything after the MIME gate; the whole handler of server.js. */
  function Ingest(s: Store, root: Path, req: Request, faults: set<Step>): (Response, Store) {
    match EnsureRoot(s, root, faults)
    case None => (ServerError, s)
    case Some(s1) =>
      match req.name
      case None => (ServerError, s1)
      case Some(name) =>
        match AllocateFolder(s1, root, name, faults)
        case None => (ServerError, s1)
        case Some((s2, folder)) =>
          var (s3, ok) := WriteFrom(s2, folder, req.files, 0, faults);
          if ok then (Ok(|req.files|), s3) else (ServerError, s3)
  }

  /** POST /upload in server.js: no MIME gate, so it never answers 400. */
  function HandleUploadUngated(s: Store, dataDir: Path, req: Request, faults: set<Step>): (r: (Response, Store))
    ensures !r.0.BadRequest?
    ensures r.0.Ok? ==> r.0.count == |req.files| && req.name.Some?
  {
    Ingest(s, dataDir, req, faults)
  }

  /** POST /upload in server/index.js: a single non-media part turns the whole
      request into a 400 before anything is touched; a request of media only
      is handled exactly as server.js handles it. */
  function HandleUpload(s: Store, uploadDir: Path, req: Request, faults: set<Step>): (r: (Response, Store))
    ensures r.0.BadRequest? <==> !AllMedia(req.files)
    ensures !AllMedia(req.files) ==> r.1 == s
    ensures AllMedia(req.files) ==> r == HandleUploadUngated(s, uploadDir, req, faults)
    ensures r.0.Ok? ==> r.0.count == |req.files| && req.name.Some?
  {
    if !AllMedia(req.files) then (BadRequest, s) else Ingest(s, uploadDir, req, faults)
  }

  // ----- What the write loop leaves behind -----

  /** The paths the parts `lo .. hi-1` are written to. */
  function Targets(folder: Path, parts: seq<FilePart>, lo: nat, hi: nat): set<Path>
    requires lo <= hi <= |parts|
  {
    set j | lo <= j < hi :: folder + [parts[j].originalname]
  }

  /** No part after `j` and before `hi` has the same original name as part `j`. */
  ghost predicate LastWithName(parts: seq<FilePart>, j: nat, hi: nat)
    requires j < hi <= |parts|
  {
    forall k :: j < k < hi ==> parts[k].originalname != parts[j].originalname
  }

  /** `after` is `before` with the parts `lo .. hi-1` written into `folder`
      in order: each target holds the bytes of the last part with that name,
      and every other file is as it was. */
  ghost predicate WrittenInOrder(before: map<Path, Bytes>, after: map<Path, Bytes>, folder: Path,
                                 parts: seq<FilePart>, lo: nat, hi: nat)
    requires lo <= hi <= |parts|
  {
    && after.Keys == before.Keys + Targets(folder, parts, lo, hi)
    && (forall j :: lo <= j < hi && LastWithName(parts, j, hi) ==>
          var t := folder + [parts[j].originalname]; t in after && after[t] == parts[j].buffer)
    && (forall q :: q in before && q !in Targets(folder, parts, lo, hi) ==> after[q] == before[q])
  }

  lemma TargetsSplit(folder: Path, parts: seq<FilePart>, lo: nat, hi: nat)
    requires lo < hi <= |parts|
    ensures Targets(folder, parts, lo, hi) == {folder + [parts[lo].originalname]} + Targets(folder, parts, lo + 1, hi)
  {
  }

  /** Different names give different paths inside the same folder. */
  lemma ChildPathsDistinct(folder: Path, a: string, b: string)
    requires a != b
    ensures folder + [a] != folder + [b]
  {
    assert (folder + [a])[|folder|] == a;
    assert (folder + [b])[|folder|] == b;
  }

  lemma LastTargetNotRewritten(folder: Path, parts: seq<FilePart>, i: nat, hi: nat)
    requires i < hi <= |parts| && LastWithName(parts, i, hi)
    ensures folder + [parts[i].originalname] !in Targets(folder, parts, i + 1, hi)
  {
    forall j | i + 1 <= j < hi
      ensures folder + [parts[j].originalname] != folder + [parts[i].originalname]
    {
      ChildPathsDistinct(folder, parts[j].originalname, parts[i].originalname);
    }
  }

  lemma NothingWritten(files: map<Path, Bytes>, folder: Path, parts: seq<FilePart>, i: nat)
    requires i <= |parts|
    ensures WrittenInOrder(files, files, folder, parts, i, i)
  {
    assert Targets(folder, parts, i, i) == {};
  }

  /** Writing part `lo` and then the parts after it is writing the parts from `lo`. */
  lemma WrittenInOrderStep(before: map<Path, Bytes>, next: map<Path, Bytes>, after: map<Path, Bytes>, folder: Path,
                           parts: seq<FilePart>, lo: nat, hi: nat)
    requires lo < hi <= |parts|
    requires next == before[folder + [parts[lo].originalname] := parts[lo].buffer]
    requires WrittenInOrder(next, after, folder, parts, lo + 1, hi)
    ensures WrittenInOrder(before, after, folder, parts, lo, hi)
  {
    TargetsSplit(folder, parts, lo, hi);
    forall j | lo <= j < hi && LastWithName(parts, j, hi)
      ensures folder + [parts[j].originalname] in after
      ensures after[folder + [parts[j].originalname]] == parts[j].buffer
    {
      if j == lo {
        LastTargetNotRewritten(folder, parts, lo, hi);
      }
    }
  }

  /** With `folder` a directory that has no subdirectories, no write fails on
      its own: the loop from `i` stops only at a refused write, and reports
      success exactly when no write was refused. It creates no directory. */
  lemma {:induction false} WriteFromOutcome(s: Store, folder: Path, parts: seq<FilePart>, i: nat, faults: set<Step>)
    requires i <= |parts|
    requires IsDir(s, folder)
    requires forall q :: q in s.dirs ==> !IsChildOf(q, folder)
    ensures var r := WriteFrom(s, folder, parts, i, faults);
      && r.0.dirs == s.dirs
      && (r.1 <==> FirstFault(faults, i, |parts|) == |parts|)
    decreases |parts| - i
  {
    if i < |parts| && WriteAt(i) !in faults {
      var s1 := WriteStep(s, folder, parts, i, faults);
      WriteFromOutcome(s1, folder, parts, i + 1, faults);
    }
  }

  /** `before` with the parts `lo .. hi-1` written into `folder`, one after another. */
  function Overlay(before: map<Path, Bytes>, folder: Path, parts: seq<FilePart>, lo: nat, hi: nat): map<Path, Bytes>
    requires lo <= hi <= |parts|
    decreases hi - lo
  {
    if lo == hi then before
    else Overlay(before[folder + [parts[lo].originalname] := parts[lo].buffer], folder, parts, lo + 1, hi)
  }

  /** Writing one after another means: each target holds the last part
      written to it, and nothing else changes. */
  lemma {:induction false} OverlayWrittenInOrder(before: map<Path, Bytes>, folder: Path, parts: seq<FilePart>, lo: nat, hi: nat)
    requires lo <= hi <= |parts|
    ensures WrittenInOrder(before, Overlay(before, folder, parts, lo, hi), folder, parts, lo, hi)
    decreases hi - lo, 1
  {
    if lo == hi {
      NothingWritten(before, folder, parts, lo);
    } else {
      OverlayFirstWrite(before, folder, parts, lo, hi);
    }
  }

  lemma {:induction false} OverlayFirstWrite(before: map<Path, Bytes>, folder: Path, parts: seq<FilePart>, lo: nat, hi: nat)
    requires lo < hi <= |parts|
    ensures var next := before[folder + [parts[lo].originalname] := parts[lo].buffer];
      WrittenInOrder(before, Overlay(next, folder, parts, lo + 1, hi), folder, parts, lo, hi)
    decreases hi - lo, 0
  {
    var next := before[folder + [parts[lo].originalname] := parts[lo].buffer];
    OverlayWrittenInOrder(next, folder, parts, lo + 1, hi);
    WrittenInOrderStep(before, next, Overlay(next, folder, parts, lo + 1, hi), folder, parts, lo, hi);
  }

  /** Under the same conditions the loop writes every part up to the first
      refused write, in order, and keeps those writes when it stops. */
  lemma {:induction false} WriteFromContents(s: Store, folder: Path, parts: seq<FilePart>, i: nat, faults: set<Step>)
    requires i <= |parts|
    requires IsDir(s, folder)
    requires forall q :: q in s.dirs ==> !IsChildOf(q, folder)
    ensures WriteFrom(s, folder, parts, i, faults).0.files == Overlay(s.files, folder, parts, i, FirstFault(faults, i, |parts|))
    decreases |parts| - i
  {
    if i < |parts| && WriteAt(i) !in faults {
      var s1 := WriteStep(s, folder, parts, i, faults);
      WriteFromContents(s1, folder, parts, i + 1, faults);
    }
  }

  /** One pass of the write loop: part `i` lands at `folder/originalname` and the loop moves on. */
  lemma WriteStep(s: Store, folder: Path, parts: seq<FilePart>, i: nat, faults: set<Step>) returns (s1: Store)
    requires i < |parts| && WriteAt(i) !in faults
    requires IsDir(s, folder)
    requires forall q :: q in s.dirs ==> !IsChildOf(q, folder)
    ensures s1 == s.(files := s.files[folder + [parts[i].originalname] := parts[i].buffer])
    ensures WriteFrom(s, folder, parts, i, faults) == WriteFrom(s1, folder, parts, i + 1, faults)
    ensures FirstFault(faults, i, |parts|) == FirstFault(faults, i + 1, |parts|)
  {
    var t := folder + [parts[i].originalname];
    assert IsChildOf(t, folder) && Parent(t) == folder by {
      assert t[..|folder|] == folder;
    }
    s1 := s.(files := s.files[t := parts[i].buffer]);
    assert WriteFile(s, t, parts[i].buffer) == Some(s1);
  }

  /** The write loop keeps the store well formed. */
  lemma {:induction false} WriteFromValid(s: Store, folder: Path, parts: seq<FilePart>, i: nat, faults: set<Step>)
    requires i <= |parts|
    requires Valid(s)
    ensures Valid(WriteFrom(s, folder, parts, i, faults).0)
    decreases |parts| - i
  {
    if i < |parts| && WriteAt(i) !in faults {
      var t := folder + [parts[i].originalname];
      match WriteFile(s, t, parts[i].buffer)
      case None =>
      case Some(s1) =>
        WriteFileValid(s, t, parts[i].buffer);
        WriteFromValid(s1, folder, parts, i + 1, faults);
    }
  }

  // ----- The handlers end to end -----

  /** The upload root is usable: a directory, or absent with no file in the way of creating it. */
  predicate RootUsable(s: Store, root: Path) {
    IsDir(s, root) || (!Exists(s, root) && !BlockedByFile(s, root))
  }

  /** The store once the root has been made sure of. */
  function RootReady(s: Store, root: Path): Store {
    if Exists(s, root) then s else s.(dirs := s.dirs + Ancestry(root))
  }

  /** The root is created, with its missing ancestors, only when nothing is
      at its path; creating it fails only on a disk fault or a file in the
      way; it never adds a name inside the root. */
  lemma EnsureRootSpec(s: Store, root: Path, faults: set<Step>)
    requires Valid(s)
    ensures var r := EnsureRoot(s, root, faults);
      && (r.None? <==> !Exists(s, root) && (CreateRoot in faults || BlockedByFile(s, root)))
      && (r.Some? ==> r.value == RootReady(s, root) && Valid(r.value) && Exists(r.value, root))
      && (r.Some? ==> Children(r.value, root) == Children(s, root))
  {
    var r := EnsureRoot(s, root, faults);
    if r.Some? && !Exists(s, root) {
      MakeDirectoryValid(s, root);
      var s1 := r.value;
      forall n
        ensures !Exists(s, root + [n]) && !Exists(s1, root + [n])
      {
        var q := root + [n];
        assert Parent(q) == root;
        assert q !in Ancestry(root);
      }
      forall n ensures n !in Children(s, root) && n !in Children(s1, root) {
        ChildrenExist(s, root, n);
        ChildrenExist(s1, root, n);
      }
    }
  }

  /** `createUniqueFolder` over the store: the folder is the first of
      `name`, `name(1)`, ... with nothing at its path, every earlier one is
      occupied, and creating it adds exactly that one directory. */
  lemma AllocateFolderSpec(s: Store, base: Path, name: string, faults: set<Step>)
    requires Valid(s) && IsDir(s, base)
    ensures var folder := FolderFor(s, base, name);
      var k := FirstFree(Children(s, base), name);
      && folder == base + [Candidate(name, k)]
      && !Exists(s, folder)
      && (forall j :: 0 <= j < k ==> Exists(s, base + [Candidate(name, j)]))
      && (!Exists(s, base + [name]) ==> folder == base + [name])
      && (CreateFolder in faults ==> AllocateFolder(s, base, name, faults).None?)
      && (CreateFolder !in faults ==>
            AllocateFolder(s, base, name, faults) == Some((s.(dirs := s.dirs + {folder}), folder)))
  {
    var taken := Children(s, base);
    var k := FirstFree(taken, name);
    var folder := FolderFor(s, base, name);
    ChildrenExist(s, base, Candidate(name, k));
    forall j | 0 <= j < k
      ensures Exists(s, base + [Candidate(name, j)])
    {
      ChildrenExist(s, base, Candidate(name, j));
    }
    if !Exists(s, base + [name]) {
      ChildrenExist(s, base, name);
      LeastFreeUnique(taken, name, 0, k);
    }
    assert Parent(folder) == base;
    MakeDirectoryUnderDir(s, folder);
  }

  /** A fresh folder has nothing inside it. */
  lemma FreshFolderEmpty(s: Store, folder: Path)
    requires Valid(s) && |folder| > 0 && !Exists(s, folder)
    ensures forall q :: q in s.dirs + {folder} ==> !IsChildOf(q, folder)
  {
  }

  /** The gated handler on a named media-only request, when the root is
      usable and neither creating the root nor creating the folder is
      refused: it behaves as `IngestOutcome` describes. */
  lemma UploadOutcome(s: Store, root: Path, req: Request, faults: set<Step>)
    requires Valid(s) && RootUsable(s, root)
    requires req.name.Some? && AllMedia(req.files)
    requires (CreateRoot !in faults || Exists(s, root)) && CreateFolder !in faults
    ensures var e := FirstFault(faults, 0, |req.files|);
      var folder := FolderFor(s, root, req.name.value);
      var r := HandleUpload(s, root, req, faults);
      && !Exists(s, folder)
      && r.0 == (if e == |req.files| then Ok(|req.files|) else ServerError)
      && r.1.dirs == RootReady(s, root).dirs + {folder}
      && WrittenInOrder(s.files, r.1.files, folder, req.files, 0, e)
      && Valid(r.1)
  {
    IngestOutcome(s, root, req, faults);
  }

  /** Past the gate (and the whole of server.js), for a request with a name,
      whatever the types of its parts, when the root is usable and neither
      creating the root nor creating the folder is refused: the request gets
      one fresh folder, the least free candidate; its files are written there
      in order up to the first refused write; the reply is the file count when
      no write was refused and 500 otherwise, with earlier writes kept. */
  lemma {:induction false} IngestOutcome(s: Store, root: Path, req: Request, faults: set<Step>)
    requires Valid(s) && RootUsable(s, root)
    requires req.name.Some?
    requires (CreateRoot !in faults || Exists(s, root)) && CreateFolder !in faults
    ensures var e := FirstFault(faults, 0, |req.files|);
      var folder := FolderFor(s, root, req.name.value);
      var r := Ingest(s, root, req, faults);
      && !Exists(s, folder)
      && r.0 == (if e == |req.files| then Ok(|req.files|) else ServerError)
      && r.1.dirs == RootReady(s, root).dirs + {folder}
      && WrittenInOrder(s.files, r.1.files, folder, req.files, 0, e)
      && Valid(r.1)
  {
    var name := req.name.value;
    EnsureRootSpec(s, root, faults);
    var s1 := RootReady(s, root);
    assert EnsureRoot(s, root, faults) == Some(s1);
    assert IsDir(s1, root);
    AllocateFolderSpec(s1, root, name, faults);
    var folder := FolderFor(s1, root, name);
    assert folder == FolderFor(s, root, name);
    var s2 := s1.(dirs := s1.dirs + {folder});
    MakeDirectoryUnderDir(s1, folder);
    MakeDirectoryValid(s1, folder);
    FreshFolderEmpty(s1, folder);
    WriteFromOutcome(s2, folder, req.files, 0, faults);
    WriteFromContents(s2, folder, req.files, 0, faults);
    OverlayWrittenInOrder(s2.files, folder, req.files, 0, FirstFault(faults, 0, |req.files|));
    WriteFromValid(s2, folder, req.files, 0, faults);
    assert !Exists(s, folder) by {
      ChildrenExist(s, root, Candidate(name, FirstFree(Children(s, root), name)));
      ChildrenExist(s1, root, Candidate(name, FirstFree(Children(s, root), name)));
    }
  }

  /** The 500 replies that come before any file is written: the root cannot
      be created (nothing else changes); the request has no name, so building
      the folder path throws after the root was made sure of; the folder cannot
      be created; or the root is a file, so no folder can be made in it. */
  lemma IngestEarlyFailures(s: Store, root: Path, req: Request, faults: set<Step>)
    requires Valid(s)
    ensures var r := Ingest(s, root, req, faults);
      && (!Exists(s, root) && (CreateRoot in faults || BlockedByFile(s, root)) ==> r == (ServerError, s))
      && (RootUsable(s, root) && (CreateRoot !in faults || Exists(s, root)) && req.name.None? ==>
            r == (ServerError, RootReady(s, root)))
      && (RootUsable(s, root) && (CreateRoot !in faults || Exists(s, root)) && req.name.Some? && CreateFolder in faults ==>
            r == (ServerError, RootReady(s, root)))
      && (root in s.files ==> r == (ServerError, s))
  {
    EnsureRootSpec(s, root, faults);
    if root in s.files && req.name.Some? {
      var folder := FolderFor(s, root, req.name.value);
      assert folder[..|root|] == root;
      assert BlockedByFile(s, folder);
    }
  }

  /** Every reply of either handler leaves the store well formed. */
  lemma HandleUploadValid(s: Store, root: Path, req: Request, faults: set<Step>)
    requires Valid(s)
    ensures Valid(HandleUpload(s, root, req, faults).1)
    ensures Valid(HandleUploadUngated(s, root, req, faults).1)
  {
    IngestValid(s, root, req, faults);
  }

  lemma IngestValid(s: Store, root: Path, req: Request, faults: set<Step>)
    requires Valid(s)
    ensures Valid(Ingest(s, root, req, faults).1)
  {
    match EnsureRoot(s, root, faults)
    case None =>
    case Some(s1) =>
      assert Valid(s1) by {
        if !Exists(s, root) {
          MakeDirectoryValid(s, root);
        }
      }
      match req.name
      case None =>
      case Some(name) =>
        match AllocateFolder(s1, root, name, faults)
        case None =>
        case Some((s2, folder)) =>
          assert MakeDirectory(s1, folder) == Some(s2);
          MakeDirectoryValid(s1, folder);
          WriteFromValid(s2, folder, req.files, 0, faults);
  }

  /** Two lists of parts that differ at most in their declared MIME types. */
  predicate SameExceptMime(a: seq<FilePart>, b: seq<FilePart>) {
    && |a| == |b|
    && forall i :: 0 <= i < |a| ==> a[i].originalname == b[i].originalname && a[i].buffer == b[i].buffer
  }

  lemma {:induction false} WriteFromIgnoresMime(s: Store, folder: Path, a: seq<FilePart>, b: seq<FilePart>,
                                                i: nat, faults: set<Step>)
    requires i <= |a| && SameExceptMime(a, b)
    ensures WriteFrom(s, folder, a, i, faults) == WriteFrom(s, folder, b, i, faults)
    decreases |a| - i
  {
    if i < |a| && WriteAt(i) !in faults {
      match WriteFile(s, folder + [a[i].originalname], a[i].buffer)
      case None =>
      case Some(s1) =>
        WriteFromIgnoresMime(s1, folder, a, b, i + 1, faults);
    }
  }

  /** server.js has no MIME gate: what it does depends on the name, the file
      names and the bytes, never on the declared types. */
  lemma UngatedIgnoresMime(s: Store, dataDir: Path, req: Request, req': Request, faults: set<Step>)
    requires req.name == req'.name && SameExceptMime(req.files, req'.files)
    ensures HandleUploadUngated(s, dataDir, req, faults) == HandleUploadUngated(s, dataDir, req', faults)
  {
    match EnsureRoot(s, dataDir, faults)
    case None =>
    case Some(s1) =>
      if req.name.Some? {
        match AllocateFolder(s1, dataDir, req.name.value, faults)
        case None =>
        case Some((s2, folder)) =>
          WriteFromIgnoresMime(s2, folder, req.files, req'.files, 0, faults);
      }
  }

  /** After a successful upload under `name`, the next submission with the
      same name gets a different folder; when `name` and `name(1)` were both
      free, the first gets `name` and the second `name(1)`. This holds on a
      fresh install too, where the first upload creates the root. */
  lemma RepeatedNameGetsNewFolder(s: Store, root: Path, req: Request, faults: set<Step>)
    requires Valid(s)
    requires req.name.Some? && HandleUpload(s, root, req, faults).0.Ok?
    ensures var name := req.name.value;
      var s' := HandleUpload(s, root, req, faults).1;
      && FolderFor(s', root, name) != FolderFor(s, root, name)
      && (!Exists(s, root + [name]) && !Exists(s, root + [Candidate(name, 1)]) ==>
            FolderFor(s, root, name) == root + [name]
            && FolderFor(s', root, name) == root + [Candidate(name, 1)])
  {
    var name := req.name.value;
    IngestEarlyFailures(s, root, req, faults);
    EnsureRootSpec(s, root, faults);
    var s1 := RootReady(s, root);
    assert EnsureRoot(s, root, faults) == Some(s1);
    assert IsDir(s1, root);
    assert HandleUpload(s1, root, req, faults) == HandleUpload(s, root, req, faults);
    assert FolderFor(s1, root, name) == FolderFor(s, root, name);
    UploadOutcome(s, root, req, faults);
    RepeatedNameUnderRoot(s1, root, req, faults);
    forall n: string
      ensures Exists(s1, root + [n]) == Exists(s, root + [n])
    {
      ChildrenExist(s, root, n);
      ChildrenExist(s1, root, n);
    }
  }

  /** The same, once the root is a directory, for a named media-only request
      whose folder and writes are not refused (the requests answered 200). */
  lemma RepeatedNameUnderRoot(s: Store, root: Path, req: Request, faults: set<Step>)
    requires Valid(s) && IsDir(s, root)
    requires req.name.Some? && AllMedia(req.files) && CreateFolder !in faults
    requires FirstFault(faults, 0, |req.files|) == |req.files|
    ensures var name := req.name.value;
      var s' := HandleUpload(s, root, req, faults).1;
      && FolderFor(s', root, name) != FolderFor(s, root, name)
      && (!Exists(s, root + [name]) && !Exists(s, root + [Candidate(name, 1)]) ==>
            FolderFor(s, root, name) == root + [name]
            && FolderFor(s', root, name) == root + [Candidate(name, 1)])
  {
    var name := req.name.value;
    var s' := HandleUpload(s, root, req, faults).1;
    var folder := FolderFor(s, root, name);
    EnsureRootSpec(s, root, faults);
    AllocateFolderSpec(s, root, name, faults);
    UploadOutcome(s, root, req, faults);
    assert folder in s'.dirs;
    AllocateFolderSpec(s', root, name, faults);
    if !Exists(s, root + [name]) && !Exists(s, root + [Candidate(name, 1)]) {
      var taken' := Children(s', root);
      ChildrenExist(s', root, name);
      ChildrenExist(s', root, Candidate(name, 1));
      var n := |req.files|;
      assert root + [Candidate(name, 1)] !in Targets(folder, req.files, 0, n);
      CandidatesDistinct(name, 0, 1);
      ChildPathsDistinct(root, name, Candidate(name, 1));
      assert IsLeastFree(taken', name, 1);
      LeastFreeUnique(taken', name, 1, FirstFree(taken', name));
    }
  }
}

/**
 * The `POST /upload` handler: validate the folder path and the file, create
 * the folder, pick the name for the returned URL (renaming on a collision),
 * write the bytes and answer with the file's URL; any error thrown on the way
 * is answered with status 400 and the error's message.
 */
module UploadService {
  import opened Wrappers
  import opened NodePath
  import opened FileStore

  const FolderPathRequired := "Folder path is required"
  const NoFileUploaded := "No file uploaded"

  /** A character of nanoid's URL-safe alphabet `A-Za-z0-9_-`. */
  predicate UrlSafe(c: char) {
    ('A' <= c <= 'Z') || ('a' <= c <= 'z') || ('0' <= c <= '9') || c == '_' || c == '-'
  }

  /** What `nanoid()` returns: a string over its URL-safe alphabet. */
  type Token = t: string | forall i :: 0 <= i < |t| ==> UrlSafe(t[i])

  /** The multipart file part: the client's file name and the bytes. */
  datatype UploadedFile = UploadedFile(originalname: FileName, buffer: Bytes)

  /** What the handler reads from the request. */
  datatype Request = Request(
    protocol: string,
    host: string,
    folderPath: Option<string>,
    file: Option<UploadedFile>)

  /**
   * A response body: `{ imageUrl }`, a `{ message }` with one of the two
   * validation messages, or the `{ message }` the error handler builds from
   * the error thrown.
   */
  datatype Body = UrlBody(imageUrl: string) | MessageBody(message: string) | ErrorBody(error: FsError)
  {
    /** The `message` field of an error response. */
    function Message(): string
      requires !UrlBody?
    {
      if MessageBody? then message else error.Message()
    }
  }

  datatype Response = Response(status: int, body: Body)

  /** The uploads tree and the response after one request. */
  datatype Outcome = Outcome(store: Store, response: Response)

  function BadRequest(message: string): Response {
    Response(400, MessageBody(message))
  }

  /** The route's error handler: status 400 with the error's message. */
  function ErrorResponse(e: FsError): Response {
    Response(400, ErrorBody(e))
  }

  /** The name used after a collision: stem, '-', token, extension. */
  function CollisionName(name: FileName, token: Token): (r: FileName)
    ensures |r| > |name|
  {
    var ext := ExtName(name);
    assert ext == name[|name| - |ext|..];
    assert '/' !in token;
    Stem(name) + "-" + token + ext
  }

  /**
   * The renamed file keeps the original stem followed by '-', and ends with
   * the original extension, which is also its own extension (except for the
   * name "..", which has none while its renaming has one).
   */
  lemma CollisionNameShape(name: FileName, token: Token)
    ensures var r := CollisionName(name, token);
      && r != name
      && r[..|Stem(name)| + 1] == Stem(name) + "-"
      && r[|r| - |ExtName(name)|..] == ExtName(name)
      && (name != ".." ==> ExtName(r) == ExtName(name) && Stem(r) == Stem(name) + "-" + token)
  {
    var r := CollisionName(name, token);
    var ext := ExtName(name);
    var prefix := Stem(name) + "-" + token;
    assert r == prefix + ext;
    StemExtRoundTrip(name);
    if name != ".." {
      if ext != "" {
        assert ext[0] == '.';
        LastIndexOfUnique(ext, '.', 0);
        LastIndexOfConcat(prefix, ext, '.');
        assert prefix[|Stem(name)|] == '-';
        assert ExtName(r) == r[|prefix|..];
      } else {
        assert Stem(name) == name;
        forall i | 0 < i < |r| ensures r[i] != '.' {
          if i < |name| {
            assert r[i] == name[i];
          } else if i > |name| {
            assert r[i] == token[i - |name| - 1];
            assert UrlSafe(token[i - |name| - 1]);
          }
        }
      }
    }
  }

  /** `finalFileName`: the original name, unless something already exists at its path. */
  function FinalName(s: Store, folder: Path, name: FileName, token: Token): (r: FileName)
    ensures r == name <==> !Exists(s, FilePath(folder, name))
  {
    if Exists(s, FilePath(folder, name)) then CollisionName(name, token) else name
  }

  /** The returned URL: `${protocol}://${host}/uploads/${folderPath}/${finalFileName}`. */
  function UploadUrl(protocol: string, host: string, folder: string, name: string): (url: string)
    ensures |url| > |name| && url[|url| - |name| - 1..] == "/" + name
  {
    protocol + "://" + host + "/uploads/" + folder + "/" + name
  }

  /** The file path below the uploads root that the static file server maps a URL of this origin to. */
  function StaticPath(url: string, protocol: string, host: string): (p: Option<Path>)
    ensures p.Some? ==> url == protocol + "://" + host + "/uploads/" + p.value
  {
    var prefix := protocol + "://" + host + "/uploads/";
    if |prefix| <= |url| && url[..|prefix|] == prefix then Some(url[|prefix|..]) else None
  }

  /** The last '/'-separated segment of a URL. */
  function LastSegment(url: string): string {
    url[LastIndexOf(url, '/') + 1..]
  }

  /** Every upload URL is served from the file path of the folder and the name it carries. */
  lemma UrlResolvesToFilePath(protocol: string, host: string, folder: string, name: FileName)
    ensures StaticPath(UploadUrl(protocol, host, folder, name), protocol, host) == Some(FilePath(folder, name))
  {
    var prefix := protocol + "://" + host + "/uploads/";
    var url := UploadUrl(protocol, host, folder, name);
    assert url == prefix + (folder + "/" + name);
  }

  /** The last segment of an upload URL is the file name it was built from. */
  lemma {:induction false} UrlLastSegment(protocol: string, host: string, folder: string, name: FileName)
    ensures LastSegment(UploadUrl(protocol, host, folder, name)) == name
  {
    var head := protocol + "://" + host + "/uploads/" + folder + "/";
    assert UploadUrl(protocol, host, folder, name) == head + name;
    LastIndexOfConcat(head, name, '/');
    LastIndexOfUnique(head, '/', |head| - 1);
  }

  /** The handler, `index.js` lines 20-52, as a function of the tree before the request. */
  function Handle(s: Store, req: Request, token: Token): (r: Outcome)
    ensures r.response.status == 200 || r.response.status == 400
    ensures r.response.status == 200 <==> r.response.body.UrlBody?
    ensures !Validated(req) ==> r.store == s && r.response.status == 400
  {
    if req.folderPath.None? || req.folderPath.value == "" then
      Outcome(s, BadRequest(FolderPathRequired))
    else if req.file.None? then
      Outcome(s, BadRequest(NoFileUploaded))
    else
      var folder, file := req.folderPath.value, req.file.value;
      match Mkdir(s, folder)
      case Err(e) => Outcome(s, ErrorResponse(e))
      case Ok(s1) =>
        var filePath := FilePath(folder, file.originalname);
        var finalName := FinalName(s1, folder, file.originalname, token);
        match WriteFile(s1, filePath, file.buffer)
        case Err(e) => Outcome(s1, ErrorResponse(e))
        case Ok(s2) => Outcome(s2, Response(200, UrlBody(UploadUrl(req.protocol, req.host, folder, finalName))))
  }

  /** Both checks passed: a non-empty folder path and a file. */
  predicate Validated(req: Request) {
    req.folderPath.Some? && req.folderPath.value != "" && req.file.Some?
  }

  /** A missing or empty folder path is refused first, whatever the file, and nothing changes. */
  lemma MissingFolderRejected(s: Store, req: Request, token: Token)
    requires req.folderPath.None? || req.folderPath.value == ""
    ensures Handle(s, req, token) == Outcome(s, Response(400, MessageBody("Folder path is required")))
  {
  }

  /** With a folder path but no file the answer is "No file uploaded", and nothing changes. */
  lemma MissingFileRejected(s: Store, req: Request, token: Token)
    requires req.folderPath.Some? && req.folderPath.value != "" && req.file.None?
    ensures Handle(s, req, token) == Outcome(s, Response(400, MessageBody("No file uploaded")))
  {
  }

  /** Creating the folder adds no entry at the file's path, so the collision check sees the tree as it was. */
  lemma ExistsAfterMkdir(s: Store, folder: Path, name: FileName)
    requires Mkdir(s, folder).Ok?
    ensures Exists(Mkdir(s, folder).value, FilePath(folder, name)) == Exists(s, FilePath(folder, name))
  {
    var p := FilePath(folder, name);
    assert |p| > |folder|;
  }

  /**
   * Once the checks pass and no file blocks the folder, the directories
   * afterwards are exactly the old ones plus the folder and its ancestors,
   * whether or not the write then succeeds; a folder that already existed
   * leaves the directories as they were.
   */
  lemma UploadCreatesFolder(s: Store, req: Request, token: Token)
    requires Valid(s) && Validated(req)
    requires req.folderPath.value !in s.files && Ancestors(req.folderPath.value) !! s.files.Keys
    ensures var out := Handle(s, req, token).store;
      && out.dirs == s.dirs + {req.folderPath.value} + Ancestors(req.folderPath.value)
      && (req.folderPath.value in s.dirs ==> out.dirs == s.dirs)
  {
    var folder := req.folderPath.value;
    MkdirSpec(s, folder);
    if folder in s.dirs { MkdirIdempotent(s, folder); }
    var s1 := Mkdir(s, folder).value;
    WriteFileSpec(s1, FilePath(folder, req.file.value.originalname), req.file.value.buffer);
  }

  /**
   * The upload succeeds exactly when the checks pass, no file stands at the
   * folder or one of its ancestors, and the file's path is not a directory.
   */
  lemma UploadSucceedsIff(s: Store, req: Request, token: Token)
    ensures Handle(s, req, token).response.status == 200 <==>
      && Validated(req)
      && req.folderPath.value !in s.files
      && Ancestors(req.folderPath.value) !! s.files.Keys
      && FilePath(req.folderPath.value, req.file.value.originalname) !in s.dirs
  {
    var status := Handle(s, req, token).response.status;
    if !Validated(req) {
      assert status == 400;
    } else {
      var folder, file := req.folderPath.value, req.file.value;
      var m := Mkdir(s, folder);
      if m.Err? {
        assert status == 400;
      } else {
        WriteAfterMkdirIff(s, folder, file.originalname, file.buffer);
        assert status == 200 <==> WriteFile(m.value, FilePath(folder, file.originalname), file.buffer).Ok?;
      }
    }
  }

  /** Right after a successful mkdir of the folder, writing a file into it fails only on a directory. */
  lemma WriteAfterMkdirIff(s: Store, folder: Path, name: FileName, data: Bytes)
    requires Mkdir(s, folder).Ok?
    ensures WriteFile(Mkdir(s, folder).value, FilePath(folder, name), data).Ok? <==>
      FilePath(folder, name) !in s.dirs
  {
    var t, p := Mkdir(s, folder).value, FilePath(folder, name);
    assert t.dirs == s.dirs + {folder} + Ancestors(folder);
    assert p !in Ancestors(folder) && p != folder by { assert |p| > |folder|; }
    ParentOfChild(folder, name);
  }

  /**
   * A successful upload stores exactly the uploaded bytes at the path built
   * from the ORIGINAL name, replacing whatever was there, and changes no
   * other file.
   */
  lemma UploadWritesOriginalPath(s: Store, req: Request, token: Token)
    requires Valid(s)
    requires Handle(s, req, token).response.status == 200
    ensures Validated(req)
    ensures var out := Handle(s, req, token).store;
      var p := FilePath(req.folderPath.value, req.file.value.originalname);
      && out.files.Keys == s.files.Keys + {p}
      && out.files[p] == req.file.value.buffer
      && (forall q :: q in s.files && q != p ==> out.files[q] == s.files[q])
  {
    var folder, file := req.folderPath.value, req.file.value;
    MkdirSpec(s, folder);
    var s1 := Mkdir(s, folder).value;
    WriteFileSpec(s1, FilePath(folder, file.originalname), file.buffer);
  }

  /**
   * The name in the returned URL is the original name when nothing existed
   * at its path, and the collision name otherwise.
   */
  lemma UploadFinalName(s: Store, req: Request, token: Token)
    requires Handle(s, req, token).response.status == 200
    ensures Validated(req)
    ensures var folder, name := req.folderPath.value, req.file.value.originalname;
      Handle(s, req, token).response.body
        == UrlBody(UploadUrl(req.protocol, req.host, folder,
             if Exists(s, FilePath(folder, name)) then CollisionName(name, token) else name))
  {
    ExistsAfterMkdir(s, req.folderPath.value, req.file.value.originalname);
  }

  /**
   * After a successful upload the URL's last segment is the name of the file
   * written exactly when nothing existed at that path before; otherwise the
   * URL names a different file from the one written.
   */
  lemma UrlNamesWrittenFileIffNoPriorEntry(s: Store, req: Request, token: Token)
    requires Handle(s, req, token).response.status == 200
    ensures Validated(req)
    ensures var name := req.file.value.originalname;
      (LastSegment(Handle(s, req, token).response.body.imageUrl) == name)
        <==> !Exists(s, FilePath(req.folderPath.value, name))
  {
    var folder, name := req.folderPath.value, req.file.value.originalname;
    UploadFinalName(s, req, token);
    var finalName := if Exists(s, FilePath(folder, name)) then CollisionName(name, token) else name;
    UrlLastSegment(req.protocol, req.host, folder, finalName);
  }

  /**
   * Every failure is answered with status 400: the two validation messages,
   * or the message of the error the filesystem raised; no request ends in 500.
   */
  lemma FailuresAre400(s: Store, req: Request, token: Token)
    ensures var r := Handle(s, req, token).response;
      r.status == 200 || r.status == 400
    ensures var r := Handle(s, req, token).response;
      r.status == 400 <==> !r.body.UrlBody?
    ensures var r := Handle(s, req, token).response;
      r.status == 400 ==>
        || r.body.Message() == "Folder path is required"
        || r.body.Message() == "No file uploaded"
        || (Validated(req) && Mkdir(s, req.folderPath.value).Err?
            && r.body.Message() == Mkdir(s, req.folderPath.value).error.Message())
        || (Validated(req) && Mkdir(s, req.folderPath.value).Ok?
            && var w := WriteFile(Mkdir(s, req.folderPath.value).value,
                         FilePath(req.folderPath.value, req.file.value.originalname),
                         req.file.value.buffer);
               w.Err? && r.body.Message() == w.error.Message())
  {
  }

  /** A request, whatever its outcome, keeps the shape of the uploads tree. */
  lemma HandlePreservesValid(s: Store, req: Request, token: Token)
    requires Valid(s)
    ensures Valid(Handle(s, req, token).store)
  {
    if Validated(req) {
      var folder, file := req.folderPath.value, req.file.value;
      MkdirSpec(s, folder);
      if Mkdir(s, folder).Ok? {
        WriteFileSpec(Mkdir(s, folder).value, FilePath(folder, file.originalname), file.buffer);
      }
    }
  }

  /**
   * A failed request writes no file. A request refused by validation, or
   * whose mkdir fails, aborts before any change at all.
   */
  lemma FailedUploadWritesNothing(s: Store, req: Request, token: Token)
    ensures var out := Handle(s, req, token);
      out.response.status == 400 ==>
        && out.store.files == s.files
        && (!Validated(req) || Mkdir(s, req.folderPath.value).Err? ==> out.store == s)
  {
  }

  /** The server's filesystem: the directories and files below the uploads root. */
  class Disk {
    var dirs: set<Path>
    var files: map<Path, Bytes>

    function Value(): Store
      reads this
    {
      Store(dirs, files)
    }

    ghost predicate Valid()
      reads this
    {
      FileStore.Valid(Value())
    }

    /** An empty uploads root. */
    constructor ()
      ensures Valid() && dirs == {} && files == map[]
    {
      dirs := {};
      files := map[];
    }

    /** `fs.existsSync(p)`. */
    predicate ExistsSync(p: Path): (e: bool)
      reads this
      ensures e <==> p in dirs || p in files
    {
      Exists(Value(), p)
    }

    /** `fs.mkdirSync(dir, { recursive: true })`; an error is what it throws. */
    method MkdirSync(dir: Path) returns (err: Option<FsError>)
      modifies this`dirs
      ensures match Mkdir(old(Value()), dir)
        case Ok(t) => err.None? && Value() == t
        case Err(e) => err == Some(e) && Value() == old(Value())
    {
      if dir in files {
        return Some(AlreadyExists(dir));
      }
      if !(Ancestors(dir) !! files.Keys) {
        return Some(NotADirectory(dir));
      }
      dirs := dirs + {dir} + Ancestors(dir);
      return None;
    }

    /** `fs.writeFileSync(p, data)`; an error is what it throws. */
    method WriteFileSync(p: Path, data: Bytes) returns (err: Option<FsError>)
      modifies this`files
      ensures match WriteFile(old(Value()), p, data)
        case Ok(t) => err.None? && Value() == t
        case Err(e) => err == Some(e) && Value() == old(Value())
    {
      if p in dirs {
        return Some(IsADirectory(p));
      }
      if Parent(p) !in dirs {
        return Some(NoSuchDirectory(p));
      }
      files := files[p := data];
      return None;
    }

    /**
     * The `POST /upload` route: the response and the new tree are those
     * `Handle` gives for the tree before the request, and the tree keeps its
     * shape.
     */
    method Upload(req: Request, token: Token) returns (resp: Response)
      requires Valid()
      modifies this
      ensures Valid()
      ensures Outcome(Value(), resp) == Handle(old(Value()), req, token)
    {
      ghost var before := Value();
      HandlePreservesValid(before, req, token);
      if req.folderPath.None? || req.folderPath.value == "" {
        return BadRequest(FolderPathRequired);
      }
      if req.file.None? {
        return BadRequest(NoFileUploaded);
      }
      var folderPath, file := req.folderPath.value, req.file.value;
      var err := MkdirSync(folderPath);
      if err.Some? {
        return ErrorResponse(err.value);
      }
      var finalFileName: FileName := file.originalname;
      var filePath := FilePath(folderPath, finalFileName);
      if ExistsSync(filePath) {
        var fileExtension := ExtName(finalFileName);
        var baseName := BaseName(finalFileName, fileExtension);
        assert CollisionName(finalFileName, token) == baseName + "-" + token + fileExtension;
        finalFileName := baseName + "-" + token + fileExtension;
      }
      err := WriteFileSync(filePath, file.buffer);
      if err.Some? {
        return ErrorResponse(err.value);
      }
      resp := Response(200, UrlBody(UploadUrl(req.protocol, req.host, folderPath, finalFileName)));
    }
  }
}

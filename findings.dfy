/**
 * On a name collision the handler computes a new name for the URL but still
 * writes to the path built from the original name (`index.js` line 43 uses
 * `filePath`, fixed at line 35). The earlier file is overwritten and the URL
 * names a file that was never written. This module shows both on the model
 * of the code as written, and proves for the evidently intended handler,
 * which writes under the final name, that the URL serves the uploaded bytes
 * and that no earlier file is overwritten.
 */
module Findings {
  import opened Wrappers
  import opened NodePath
  import opened FileStore
  import opened UploadService

  /**
   * The handler as written: after a collision (a file at the original path,
   * nothing at the renamed one, no file blocking the folder) the upload
   * succeeds, the earlier content is replaced and the returned URL resolves
   * to no file.
   */
  lemma CollisionOverwritesAndDangles(s: Store, req: Request, token: Token)
    requires Valid(s) && Validated(req)
    requires req.folderPath.value !in s.files && Ancestors(req.folderPath.value) !! s.files.Keys
    requires FilePath(req.folderPath.value, req.file.value.originalname) in s.files
    requires FilePath(req.folderPath.value, CollisionName(req.file.value.originalname, token)) !in s.files
    ensures Handle(s, req, token).response.status == 200
    ensures var folder, file := req.folderPath.value, req.file.value;
      var renamed := CollisionName(file.originalname, token);
      var out := Handle(s, req, token);
      && FilePath(folder, file.originalname) in out.store.files
      && out.store.files[FilePath(folder, file.originalname)] == file.buffer
      && out.response.body == UrlBody(UploadUrl(req.protocol, req.host, folder, renamed))
      && StaticPath(UploadUrl(req.protocol, req.host, folder, renamed), req.protocol, req.host)
           == Some(FilePath(folder, renamed))
      && FilePath(folder, renamed) !in out.store.files
  {
    var folder, file := req.folderPath.value, req.file.value;
    var renamed := FilePath(folder, CollisionName(file.originalname, token));
    var written := FilePath(folder, file.originalname);
    UploadSucceedsIff(s, req, token);
    UploadWritesOriginalPath(s, req, token);
    UploadFinalName(s, req, token);
    UrlResolvesToFilePath(req.protocol, req.host, folder, CollisionName(file.originalname, token));
    assert |renamed| > |written|;
  }

  /**
   * A worked example proved on the model: "docs/a.txt" holds [1]; uploading another "a.txt" with
   * bytes [2] to folder "docs" with token "T" replaces [1] by [2] and
   * answers with "http://host/uploads/docs/a-T.txt", whose file "docs/a-T.txt"
   * does not exist.
   */
  lemma OverwriteExample(s: Store, req: Request)
    requires s == Store({"docs"}, map["docs/a.txt" := [1]])
    requires req == Request("http", "host", Some("docs"), Some(UploadedFile("a.txt", [2])))
    ensures Handle(s, req, "T").response == Response(200, UrlBody(UploadUrl("http", "host", "docs", "a-T.txt")))
    ensures Handle(s, req, "T").store.files == map["docs/a.txt" := [2]]
    ensures CollisionName("a.txt", "T") == "a-T.txt"
    ensures StaticPath(UploadUrl("http", "host", "docs", "a-T.txt"), "http", "host")
      == Some(FilePath("docs", CollisionName("a.txt", "T")))
    ensures FilePath("docs", CollisionName("a.txt", "T")) !in Handle(s, req, "T").store.files
  {
    var written := Store({"docs"}, map["docs/a.txt" := [2]]);
    ExampleMkdir(s);
    ExampleWrite(s, written);
    ExampleFinalName(s);
    HandleAfterWrite(s, req, "T", s, written);
    ExampleUrl(written);
  }

  /** The successful path of Handle, unfolded once for given intermediate trees. */
  lemma HandleAfterWrite(s: Store, req: Request, token: Token, s1: Store, s2: Store)
    requires Validated(req)
    requires Mkdir(s, req.folderPath.value) == Ok(s1)
    requires WriteFile(s1, FilePath(req.folderPath.value, req.file.value.originalname), req.file.value.buffer) == Ok(s2)
    ensures Handle(s, req, token) == Outcome(s2, Response(200, UrlBody(UploadUrl(
      req.protocol, req.host, req.folderPath.value,
      FinalName(s1, req.folderPath.value, req.file.value.originalname, token)))))
  {
  }

  lemma ExampleUrl(written: Store)
    requires written == Store({"docs"}, map["docs/a.txt" := [2]])
    requires CollisionName("a.txt", "T") == "a-T.txt"
    ensures StaticPath(UploadUrl("http", "host", "docs", "a-T.txt"), "http", "host")
      == Some(FilePath("docs", CollisionName("a.txt", "T")))
    ensures FilePath("docs", CollisionName("a.txt", "T")) !in written.files
  {
    UrlResolvesToFilePath("http", "host", "docs", CollisionName("a.txt", "T"));
    assert |FilePath("docs", CollisionName("a.txt", "T"))| != |"docs/a.txt"|;
  }

  lemma ExampleMkdir(s: Store)
    requires s == Store({"docs"}, map["docs/a.txt" := [1]])
    ensures Mkdir(s, "docs") == Ok(s)
  {
    assert Ancestors("docs") == {} by {
      forall i | 0 < i < 4 ensures "docs"[i] != '/' { }
    }
    assert "docs" !in s.files by { assert |"docs"| != |"docs/a.txt"|; }
    assert s.dirs + {"docs"} + Ancestors("docs") == s.dirs;
  }

  lemma ExampleWrite(s: Store, written: Store)
    requires s == Store({"docs"}, map["docs/a.txt" := [1]])
    requires written == Store({"docs"}, map["docs/a.txt" := [2]])
    ensures FilePath("docs", "a.txt") == "docs/a.txt"
    ensures WriteFile(s, "docs/a.txt", [2]) == Ok(written)
  {
    assert FilePath("docs", "a.txt") == "docs/a.txt";
    assert "docs/a.txt" !in s.dirs by { assert |"docs"| != |"docs/a.txt"|; }
    ParentOfChild("docs", "a.txt");
    assert s.files["docs/a.txt" := [2]] == written.files;
  }

  lemma ExampleFinalName(s: Store)
    requires s == Store({"docs"}, map["docs/a.txt" := [1]])
    ensures CollisionName("a.txt", "T") == "a-T.txt"
    ensures FinalName(s, "docs", "a.txt", "T") == "a-T.txt"
  {
    assert FilePath("docs", "a.txt") == "docs/a.txt";
    assert Exists(s, "docs/a.txt");
    LastIndexOfUnique("a.txt", '.', 1);
    assert ExtName("a.txt") == ".txt";
    assert Stem("a.txt") == "a";
  }

  /** The corrected handler: identical, except that it writes under the final name. */
  function HandleIntended(s: Store, req: Request, token: Token): (r: Outcome)
    ensures r.response.status == 200 || r.response.status == 400
    ensures !Validated(req) ==> r.store == s && r.response.status == 400
    ensures r.response.status == 200 <==> r.response.body.UrlBody?
    ensures r.response.status == 200 ==>
      Validated(req) && Mkdir(s, req.folderPath.value).Ok? &&
      FilePath(req.folderPath.value, FinalName(Mkdir(s, req.folderPath.value).value,
        req.folderPath.value, req.file.value.originalname, token)) in r.store.files
  {
    if req.folderPath.None? || req.folderPath.value == "" then
      Outcome(s, BadRequest(FolderPathRequired))
    else if req.file.None? then
      Outcome(s, BadRequest(NoFileUploaded))
    else
      var folder, file := req.folderPath.value, req.file.value;
      match Mkdir(s, folder)
      case Err(e) => Outcome(s, ErrorResponse(e))
      case Ok(s1) =>
        var finalName := FinalName(s1, folder, file.originalname, token);
        match WriteFile(s1, FilePath(folder, finalName), file.buffer)
        case Err(e) => Outcome(s1, ErrorResponse(e))
        case Ok(s2) => Outcome(s2, Response(200, UrlBody(UploadUrl(req.protocol, req.host, folder, finalName))))
  }

  /**
   * The corrected handler, on success: fetching the returned URL yields
   * exactly the uploaded bytes, and no file that existed before is changed,
   * provided nothing exists at the original path (so the name is kept) or
   * nothing exists at the renamed path (the token is fresh).
   */
  lemma IntendedRoundTripNoOverwrite(s: Store, req: Request, token: Token)
    requires Valid(s)
    requires HandleIntended(s, req, token).response.status == 200
    ensures Validated(req)
    ensures var out := HandleIntended(s, req, token);
      var p := StaticPath(out.response.body.imageUrl, req.protocol, req.host);
      p.Some? && p.value in out.store.files && out.store.files[p.value] == req.file.value.buffer
    ensures var out := HandleIntended(s, req, token);
      !Exists(s, FilePath(req.folderPath.value, req.file.value.originalname))
        || !Exists(s, FilePath(req.folderPath.value, CollisionName(req.file.value.originalname, token)))
      ==> forall q :: q in s.files ==> q in out.store.files && out.store.files[q] == s.files[q]
    ensures Valid(HandleIntended(s, req, token).store)
  {
    var folder, file := req.folderPath.value, req.file.value;
    MkdirSpec(s, folder);
    var s1 := Mkdir(s, folder).value;
    var finalName := FinalName(s1, folder, file.originalname, token);
    ExistsAfterMkdir(s, folder, file.originalname);
    WriteFileSpec(s1, FilePath(folder, finalName), file.buffer);
    UrlResolvesToFilePath(req.protocol, req.host, folder, finalName);
    if !Exists(s, FilePath(folder, file.originalname))
      || !Exists(s, FilePath(folder, CollisionName(file.originalname, token))) {
      assert FilePath(folder, finalName) !in s.files;
    }
  }
}

/**
 The request dispatcher of the serverless gateway: the request's script name
 is joined to the document root, `index.php` is added when the joined path
 ends in a slash, and the resulting file is either run as a PHP script,
 served with a content type from a fixed table, refused with 406 or
 reported missing with 404.

 The filesystem is a parameter: `existing` is the set of paths for which
 `file_exists` answers true. Running the script and writing the response
 are outcome values, not effects.
 */
module Handler {
  import opened PathInfo

  /** The document root the handler hard-codes. */
  const DocumentRoot: string := "/mnt/docroot"

  /** The document added to a path that names a directory. */
  const DefaultDocument: string := "index.php"

  /** Extensions served as static files, and their content types. */
  const MimeTypes: map<string, string> := map[
    "css"  := "text/css",
    "js"   := "application/javascript",
    "png"  := "image/png",
    "jpg"  := "image/jpeg",
    "jpeg" := "image/jpeg",
    "gif"  := "image/gif",
    "ico"  := "image/vnd.microsoft.icon",
    "svg"  := "image/svg+xml"
  ]

  /** What the handler decides to do with one request. */
  datatype Outcome =
    | Execute(path: string)                      // `require` the PHP script
    | Serve(path: string, contentType: string)   // send the file with a Content-Type header
    | Unsupported                                // 406 Not Acceptable
    | NotFound                                   // 404 Not Found

  datatype Body = Empty | FileContents(path: string)

  /** The response the handler itself produces, or the script it hands the request to. */
  datatype Response =
    | Delegated(script: string)
    | Reply(status: nat, headers: seq<string>, body: Body)

  /**
   The file a request names. The slash test is made on the joined path, and
   no `..` or `//` is normalised away.
   */
  function Resolve(root: string, scriptName: string): (path: string)
    ensures root <= path && root + scriptName <= path
    ensures !EndsWithSlash(path)
  {
    var joined := root + scriptName;
    if EndsWithSlash(joined) then joined + DefaultDocument else joined
  }

  /**
   What becomes of a file that exists, given the `extension` entry `pathinfo`
   reports for it. An absent entry reads as null in PHP; null equals neither
   `"php"` nor any key of the table, where it looks up `""`.
   */
  function Classify(path: string, ext: Option<string>): (o: Outcome)
    ensures !o.NotFound?
    ensures o.Execute? <==> ext == Some("php")
    ensures o.Serve? <==> ext.Some? && ext.value != "php" && ext.value in MimeTypes
    ensures o.Unsupported? <==> ext.None? || (ext.value != "php" && ext.value !in MimeTypes)
    ensures o.Execute? || o.Serve? ==> o.path == path
    ensures o.Serve? ==> o.contentType == MimeTypes[ext.value]
  {
    var key := ext.GetOr("");
    if key == "php" then Execute(path)
    else if key in MimeTypes then Serve(path, MimeTypes[key])
    else Unsupported
  }

  /**
   The decision of the handler for one request: 404 unless the resolved file
   exists, then exactly one of run, serve and refuse, by its extension.
   */
  function Dispatch(root: string, scriptName: string, existing: set<string>): (o: Outcome)
    ensures var p := Resolve(root, scriptName);
      && (o.NotFound? <==> p !in existing)
      && (o.Execute? <==> p in existing && Extension(p) == Some("php"))
      && (o.Serve? <==> p in existing && Extension(p).Some? && Extension(p).value in MimeTypes)
      && (o.Unsupported? <==>
            p in existing && Extension(p) != Some("php")
            && !(Extension(p).Some? && Extension(p).value in MimeTypes))
    ensures o.Execute? || o.Serve? ==> o.path == Resolve(root, scriptName)
    ensures o.Serve? ==> o.contentType == MimeTypes[Extension(o.path).value]
  {
    var path := Resolve(root, scriptName);
    assert "php" !in MimeTypes;
    if path !in existing then NotFound else Classify(path, Extension(path))
  }

  /** The response that goes with an outcome. */
  function Respond(o: Outcome): (r: Response)
    ensures r.Delegated? <==> o.Execute?
    ensures r.Delegated? ==> r.script == o.path
    ensures r.Reply? ==> r.status in {200, 404, 406}
    ensures r.Reply? && r.status == 200 <==> o.Serve?
    ensures r.Reply? && r.status == 404 <==> o.NotFound?
    ensures r.Reply? && r.status == 406 <==> o.Unsupported?
    ensures r.Reply? && r.status != 200 ==> r.headers == [] && r.body == Empty
    ensures o.Serve? ==> r.headers == ["Content-Type: " + o.contentType] && r.body == FileContents(o.path)
  {
    match o
    case Execute(path) => Delegated(path)
    case Serve(path, contentType) => Reply(200, ["Content-Type: " + contentType], FileContents(path))
    case Unsupported => Reply(406, [], Empty)
    case NotFound => Reply(404, [], Empty)
  }

  /** One run of the handler under its hard-coded document root. */
  function HandleRequest(scriptName: string, existing: set<string>): (r: Response)
    ensures r.Reply? && r.status == 404 <==> Resolve(DocumentRoot, scriptName) !in existing
    ensures var p := Resolve(DocumentRoot, scriptName);
      r.Delegated? <==> p in existing && Extension(p) == Some("php")
    ensures var p := Resolve(DocumentRoot, scriptName);
      r.Reply? && r.status == 200 <==> p in existing && Extension(p).Some? && Extension(p).value in MimeTypes
    ensures var p := Resolve(DocumentRoot, scriptName);
      r.Reply? && r.status == 406 <==>
        p in existing && Extension(p) != Some("php")
        && !(Extension(p).Some? && Extension(p).value in MimeTypes)
    ensures r.Delegated? ==> r.script == Resolve(DocumentRoot, scriptName)
    ensures r.Delegated? ==> DocumentRoot <= r.script && r.script in existing
    ensures r.Reply? && r.status == 200 ==> r.body == FileContents(Resolve(DocumentRoot, scriptName))
    ensures r.Reply? && r.status != 200 ==> r.headers == [] && r.body == Empty
    ensures r.Reply? && r.body.FileContents? ==> DocumentRoot <= r.body.path && r.body.path in existing
    ensures r.Reply? && r.status == 200 ==>
      r.body.FileContents? && Extension(r.body.path).Some? && Extension(r.body.path).value in MimeTypes
      && r.headers == ["Content-Type: " + MimeTypes[Extension(r.body.path).value]]
  {
    var o := Dispatch(DocumentRoot, scriptName, existing);
    Respond(o)
  }

  /** Every table key is a plain extension other than `php`. */
  lemma MimeKeysArePlain(ext: string)
    requires ext in MimeTypes
    ensures '.' !in ext && '/' !in ext && ext != "php"
  {
    assert ext in {"css", "js", "png", "jpg", "jpeg", "gif", "ico", "svg"};
  }

  // ---------------------------------------------------------------------------
  // Path resolution

  /** A script name ending in a slash names the directory's `index.php`. */
  lemma ResolveDirectoryIndex(root: string, scriptName: string)
    requires EndsWithSlash(scriptName)
    ensures Resolve(root, scriptName) == root + scriptName + "index.php"
  {
  }

  /** Any other non-empty script name is appended to the root verbatim. */
  lemma ResolveVerbatim(root: string, scriptName: string)
    requires scriptName != [] && !EndsWithSlash(scriptName)
    ensures Resolve(root, scriptName) == root + scriptName
  {
  }

  /**
   Under the hard-coded root, testing the joined path for a trailing slash is
   the same as testing the script name.
   */
  lemma ResolveUnderDocumentRoot(scriptName: string)
    ensures EndsWithSlash(scriptName) <==>
      Resolve(DocumentRoot, scriptName) == DocumentRoot + scriptName + DefaultDocument
    ensures !EndsWithSlash(scriptName) <==>
      Resolve(DocumentRoot, scriptName) == DocumentRoot + scriptName
  {
    var joined := DocumentRoot + scriptName;
    if scriptName != [] {
      assert joined[|joined| - 1] == scriptName[|scriptName| - 1];
    }
    if !EndsWithSlash(scriptName) {
      assert |joined + DefaultDocument| > |joined|;
    }
  }

  // ---------------------------------------------------------------------------
  // Dispatch by the final path segment

  /** An existing file whose name ends in `.php` is run, whatever the directory and the MIME table say. */
  lemma PhpScriptIsExecuted(root: string, scriptName: string, existing: set<string>)
    requires EndsWith(scriptName, ".php") && root + scriptName in existing
    ensures Dispatch(root, scriptName, existing) == Execute(root + scriptName)
  {
    NamedFile(root, scriptName, "php");
  }

  /** An existing file whose extension is a table key is served with exactly its content type. */
  lemma StaticFileIsServed(root: string, scriptName: string, ext: string, existing: set<string>)
    requires ext in MimeTypes && EndsWith(scriptName, ['.'] + ext) && root + scriptName in existing
    ensures Dispatch(root, scriptName, existing) == Serve(root + scriptName, MimeTypes[ext])
  {
    MimeKeysArePlain(ext);
    NamedFile(root, scriptName, ext);
  }

  /**
   An existing file whose extension is neither `php` nor a table key is
   refused with 406.
   */
  lemma UnknownExtensionIsUnsupported(root: string, scriptName: string, ext: string, existing: set<string>)
    requires '.' !in ext && '/' !in ext && ext != "php" && ext !in MimeTypes
    requires EndsWith(scriptName, ['.'] + ext) && root + scriptName in existing
    ensures Dispatch(root, scriptName, existing) == Unsupported
  {
    NamedFile(root, scriptName, ext);
  }

  /** Matching is case-sensitive: `.PNG` and `.PHP` files are refused with 406. */
  lemma ExtensionMatchIsCaseSensitive(root: string, scriptName: string, existing: set<string>)
    requires EndsWith(scriptName, ".PNG") || EndsWith(scriptName, ".PHP")
    requires root + scriptName in existing
    ensures Dispatch(root, scriptName, existing) == Unsupported
  {
    if EndsWith(scriptName, ".PNG") {
      UnknownExtensionIsUnsupported(root, scriptName, "PNG", existing);
    } else {
      UnknownExtensionIsUnsupported(root, scriptName, "PHP", existing);
    }
  }

  /**
   An existing final segment without a dot is refused with 406, however many
   dots the directories hold; this is what a dot-free directory name given
   without its trailing slash gets.
   */
  lemma ExtensionlessIsUnsupported(root: string, dir: string, name: string, existing: set<string>)
    requires name != [] && '/' !in name && '.' !in name
    requires root + dir + "/" + name in existing
    ensures Dispatch(root, dir + "/" + name, existing) == Unsupported
  {
    var sn := dir + "/" + name;
    var p := (root + dir) + "/" + name;
    assert root + sn == p;
    assert name[|name| - 1] in name;
    assert sn[|sn| - 1] == name[|name| - 1];
    assert Resolve(root, sn) == p;
    ExtensionIgnoresDirectories(root + dir, name);
    NoExtensionWithoutDot(name);
  }

  /**
   For a joined path that does not end in a slash, the script is run exactly
   when the file exists and its path ends in `.php`.
   */
  lemma ExecutedExactlyForPhpNames(root: string, scriptName: string, existing: set<string>)
    requires !EndsWithSlash(root + scriptName)
    ensures Dispatch(root, scriptName, existing).Execute? <==>
      root + scriptName in existing && EndsWith(root + scriptName, ".php")
  {
    assert Resolve(root, scriptName) == root + scriptName;
    assert ['.'] + "php" == ".php";
    ExtensionBySuffix(root + scriptName, "php");
  }

  /** Both spellings of the JPEG extension are served as `image/jpeg`. */
  lemma JpegSpellingsAgree(root: string, short: string, long: string, existing: set<string>)
    requires EndsWith(short, ".jpg") && EndsWith(long, ".jpeg")
    requires root + short in existing && root + long in existing
    ensures Dispatch(root, short, existing) == Serve(root + short, "image/jpeg")
    ensures Dispatch(root, long, existing) == Serve(root + long, "image/jpeg")
  {
    assert ['.'] + "jpg" == ".jpg" && ['.'] + "jpeg" == ".jpeg";
    assert MimeTypes["jpg"] == "image/jpeg" && MimeTypes["jpeg"] == "image/jpeg";
    StaticFileIsServed(root, short, "jpg", existing);
    StaticFileIsServed(root, long, "jpeg", existing);
  }

  /** A missing file is reported as 404 whatever its name. */
  lemma MissingIsNotFound(root: string, scriptName: string, existing: set<string>)
    requires Resolve(root, scriptName) !in existing
    ensures Dispatch(root, scriptName, existing) == NotFound
    ensures Respond(Dispatch(root, scriptName, existing)) == Reply(404, [], Empty)
  {
  }

  /** A request for `dir/` is the same request as one for `dir/index.php`. */
  lemma DirectoryMeansIndex(root: string, scriptName: string, existing: set<string>)
    requires EndsWithSlash(scriptName)
    ensures Dispatch(root, scriptName, existing) == Dispatch(root, scriptName + DefaultDocument, existing)
    ensures root + scriptName + DefaultDocument in existing ==>
      Dispatch(root, scriptName, existing) == Execute(root + scriptName + DefaultDocument)
  {
    var index := scriptName + DefaultDocument;
    assert root + index == root + scriptName + DefaultDocument;
    assert index[|index| - 1] == 'p';
    assert Resolve(root, index) == root + index;
    assert EndsWith(index, ".php") by {
      assert index[|index| - 4..] == DefaultDocument[5..];
    }
    if root + index in existing {
      PhpScriptIsExecuted(root, index, existing);
    }
  }

  /**
   No `..` is resolved: a script name that climbs out of the root is joined
   verbatim, and the file it names is run when it exists.
   */
  lemma ParentSegmentsAreKept(scriptName: string, existing: set<string>)
    requires scriptName == "/../etc/x.php" && "/mnt/docroot/../etc/x.php" in existing
    ensures HandleRequest(scriptName, existing) == Delegated("/mnt/docroot/../etc/x.php")
  {
    assert DocumentRoot + scriptName == "/mnt/docroot/../etc/x.php";
    assert EndsWith(scriptName, ".php") by {
      assert scriptName[9..] == ".php";
    }
    PhpScriptIsExecuted(DocumentRoot, scriptName, existing);
  }

  /** The filesystem is consulted about the resolved path only. */
  lemma DispatchDependsOnResolvedPathOnly(root: string, scriptName: string, e1: set<string>, e2: set<string>)
    requires Resolve(root, scriptName) in e1 <==> Resolve(root, scriptName) in e2
    ensures Dispatch(root, scriptName, e1) == Dispatch(root, scriptName, e2)
  {
  }

  // Four example requests under the hard-coded root; in each, `existing` is any
  // filesystem where the named file is present or absent. The script name is a
  // parameter pinned by `requires` rather than written as a literal in the
  // ensures, so that the verifier does not unfold the path functions on
  // literal arguments without bound.

  /** `/style.css` exists: 200, `Content-Type: text/css`, the file's bytes. */
  lemma ScenarioStylesheet(scriptName: string, existing: set<string>)
    requires scriptName == "/style.css" && "/mnt/docroot/style.css" in existing
    ensures HandleRequest(scriptName, existing)
      == Reply(200, ["Content-Type: text/css"], FileContents("/mnt/docroot/style.css"))
  {
    assert DocumentRoot + scriptName == "/mnt/docroot/style.css";
    assert EndsWith(scriptName, ['.'] + "css") by {
      assert scriptName[6..] == ".css";
    }
    assert "css" in MimeTypes;
    StaticFileIsServed(DocumentRoot, scriptName, "css", existing);
    StylesheetReply();
  }

  /** The reply for a served stylesheet, computed from the table. */
  lemma StylesheetReply()
    ensures Respond(Serve("/mnt/docroot/style.css", MimeTypes["css"]))
      == Reply(200, ["Content-Type: text/css"], FileContents("/mnt/docroot/style.css"))
  {
    assert MimeTypes["css"] == "text/css";
    assert "Content-Type: " + "text/css" == "Content-Type: text/css";
  }

  /** `/` with `index.php` present at the root: the script is run. */
  lemma ScenarioIndex(scriptName: string, existing: set<string>)
    requires scriptName == "/" && "/mnt/docroot/index.php" in existing
    ensures HandleRequest(scriptName, existing) == Delegated("/mnt/docroot/index.php")
  {
    assert DocumentRoot + scriptName + DefaultDocument == "/mnt/docroot/index.php";
    DirectoryMeansIndex(DocumentRoot, scriptName, existing);
  }

  /** `/data.json` exists, but `json` is not in the table: 406. */
  lemma ScenarioUnregistered(scriptName: string, existing: set<string>)
    requires scriptName == "/data.json" && "/mnt/docroot/data.json" in existing
    ensures HandleRequest(scriptName, existing) == Reply(406, [], Empty)
  {
    assert DocumentRoot + scriptName == "/mnt/docroot/data.json";
    assert EndsWith(scriptName, ['.'] + "json") by {
      assert scriptName[5..] == ".json";
    }
    UnknownExtensionIsUnsupported(DocumentRoot, scriptName, "json", existing);
  }

  /** `/missing.png` does not exist: 404. */
  lemma ScenarioMissing(scriptName: string, existing: set<string>)
    requires scriptName == "/missing.png" && "/mnt/docroot/missing.png" !in existing
    ensures HandleRequest(scriptName, existing) == Reply(404, [], Empty)
  {
    assert DocumentRoot + scriptName == "/mnt/docroot/missing.png";
  }

  /** A script name ending in `.ext` resolves to itself under the root, with extension `ext`. */
  lemma NamedFile(root: string, scriptName: string, ext: string)
    requires '.' !in ext && '/' !in ext && EndsWith(scriptName, ['.'] + ext)
    ensures Resolve(root, scriptName) == root + scriptName
    ensures Extension(root + scriptName) == Some(ext)
  {
    EndsWithAfterPrefix(root, scriptName, ['.'] + ext);
    DotSuffixIsNotSlash(root + scriptName, ext);
    ExtensionFromSuffix(root + scriptName, ext);
  }
}

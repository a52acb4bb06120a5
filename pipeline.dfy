/**
 * How one uploaded photo travels through the system: the server stores it
 * under `<timestamp>-<suffix>-<original name>` inside `uploads`, the bulk
 * download names its zip entry after the person and that stored name, and
 * the dashboard links to it. The link depends on how the dashboard rewrites
 * the stored path, which is where the script and the intended behaviour part.
 */
module Pipeline {
  import opened Wrappers
  import opened Text
  import opened Upload
  import opened Registrations
  import opened Archive
  import opened Admin

  /** A character that is neither a digit nor a dash never occurs in a stored name unless the uploader's name has it. */
  lemma StoredNameHasNoChar(timestamp: nat, suffix: nat, originalName: string, c: char)
    requires !IsAsciiDigit(c) && c != '-'
    requires HasNoChar(originalName, c)
    ensures HasNoChar(StoredName(timestamp, suffix, originalName), c)
  {
    var t, u := NatToDecimal(timestamp), NatToDecimal(suffix);
    DecimalHasNoChar(timestamp, c);
    DecimalHasNoChar(suffix, c);
    var name := StoredName(timestamp, suffix, originalName);
    assert name == t + ['-'] + u + ['-'] + originalName;
  }

  /** The stored path of an upload, as the record keeps it. */
  function StoredPhotoPath(f: FileInfo, env: Env): string
    requires ValidEnv(env)
  {
    UploadPath(env.root, env.sep, StoredName(env.now, RandomSuffix(env.draw), f.originalName))
  }

  /** The photo of a stored record is the upload's stored path, which is never empty. */
  lemma RegisteredPhoto(body: map<string, string>, f: FileInfo, env: Env, isDate: string -> bool)
    requires ValidEnv(env)
    requires Register(body, Some(f), env, isDate).Ok?
    ensures Register(body, Some(f), env, isDate).value.photo == Some(StoredPhotoPath(f, env))
    ensures StoredPhotoPath(f, env) != ""
  {
    RegisteredPhotoIsUpload(body, Some(f), env, isDate);
  }

  /**
   * The zip entry of a stored record is `<first>-<last>-` followed by the
   * stored file name: the directory of the stored path is dropped, and the
   * timestamp and suffix stay in the name.
   */
  lemma ArchiveEntryOfUpload(body: map<string, string>, f: FileInfo, env: Env, isDate: string -> bool, seps: set<char>)
    requires ValidEnv(env)
    requires env.sep in seps
    requires forall c :: c in seps ==> !IsAsciiDigit(c) && c != '-'
    requires HasNoSeparator(f.originalName, seps)
    requires Register(body, Some(f), env, isDate).Ok?
    ensures var r := Register(body, Some(f), env, isDate).value;
      EntryName(r, seps) == Show(r.firstName) + "-" + Show(r.lastName) + "-"
                            + StoredName(env.now, RandomSuffix(env.draw), f.originalName)
  {
    RegisteredPhoto(body, f, env, isDate);
    var name := StoredName(env.now, RandomSuffix(env.draw), f.originalName);
    forall c | c in seps ensures HasNoChar(name, c) {
      StoredNameHasNoChar(env.now, RandomSuffix(env.draw), f.originalName, c);
    }
    var dir := env.root + [env.sep] + "uploads";
    assert StoredPhotoPath(f, env) == dir + [env.sep] + name;
    BasenameOfJoin(dir, env.sep, name, seps);
  }

  /** A record the dashboard received whose `photo` is the stored path of `f`. */
  predicate SentWithPhoto(o: JsObject, f: FileInfo, env: Env)
    requires ValidEnv(env)
  {
    Get(o, "photo") == Str(StoredPhotoPath(f, env))
  }

  lemma LinkOfUploads(name: string)
    ensures "/" + ("uploads/" + name) == "/uploads/" + name
  {
  }

  /** The line terminators of JavaScript never occur in `s`. */
  predicate SingleLine(s: string) {
    forall i :: 0 <= i < |s| ==> !IsLineTerminator(s[i])
  }

  /**
   * On Windows the script's link works: the stored path ends in
   * `\uploads\<stored name>`, which becomes `/uploads/<stored name>`, the
   * route the server serves uploads under.
   */
  lemma ScriptLinkOnWindows(o: JsObject, f: FileInfo, env: Env, localeDate: JsValue -> string)
    requires ValidEnv(env) && env.sep == '\\'
    requires SingleLine(env.root) && HasNoChar(f.originalName, '\\')
    requires SentWithPhoto(o, f, env)
    ensures CellFor(o, "photo", ScriptReading, localeDate)
      == Some(PhotoCell("/uploads/" + StoredName(env.now, RandomSuffix(env.draw), f.originalName), AltText(o, ScriptReading)))
  {
    var name := StoredName(env.now, RandomSuffix(env.draw), f.originalName);
    StoredNameHasNoChar(env.now, RandomSuffix(env.draw), f.originalName, '\\');
    assert StoredPhotoPath(f, env) == env.root + Marker + name;
    RewriteWindowsUpload(env.root, name);
    PhotoCellOf(o, StoredPhotoPath(f, env), ScriptReading, localeDate);
    LinkOfUploads(name);
  }

  /**
   * On a POSIX server the script's link is broken: the stored path has no
   * `\`, so it is kept whole, and `/` + an absolute path starts with `//`,
   * which a browser reads as a link to another host.
   */
  lemma ScriptLinkOnPosix(o: JsObject, f: FileInfo, env: Env, localeDate: JsValue -> string)
    requires ValidEnv(env) && env.sep == '/'
    requires |env.root| > 0 && env.root[0] == '/'
    requires HasNoChar(env.root, '\\') && HasNoChar(f.originalName, '\\')
    requires SentWithPhoto(o, f, env)
    ensures CellFor(o, "photo", ScriptReading, localeDate)
      == Some(PhotoCell("/" + StoredPhotoPath(f, env), AltText(o, ScriptReading)))
    ensures StartsWith(CellFor(o, "photo", ScriptReading, localeDate).value.href, "//")
  {
    var name := StoredName(env.now, RandomSuffix(env.draw), f.originalName);
    StoredNameHasNoChar(env.now, RandomSuffix(env.draw), f.originalName, '\\');
    var path := StoredPhotoPath(f, env);
    var mid := ['/'] + "uploads" + ['/'];
    assert path == env.root + mid + name;
    forall i | 0 <= i < |path| ensures path[i] != '\\' {
      if i < |env.root| {
        assert path[i] == env.root[i];
      } else if i < |env.root| + |mid| {
        assert path[i] == mid[i - |env.root|];
      } else {
        assert path[i] == name[i - |env.root| - |mid|];
      }
    }
    ScriptRewriteKeepsPosixPath(path);
    PhotoCellOf(o, path, ScriptReading, localeDate);
    var href := "/" + path;
    assert href[..2] == "//";
  }

  /**
   * With the intended rewrite the link is `/uploads/<stored name>` on either
   * platform, as long as the uploader's file name holds no separator.
   */
  lemma CorrectedLinkIsServed(o: JsObject, f: FileInfo, env: Env, localeDate: JsValue -> string)
    requires ValidEnv(env) && (env.sep == '/' || env.sep == '\\')
    requires SingleLine(env.root)
    requires HasNoChar(f.originalName, '/') && HasNoChar(f.originalName, '\\')
    requires SentWithPhoto(o, f, env)
    ensures CellFor(o, "photo", CorrectedReading, localeDate)
      == Some(PhotoCell("/uploads/" + StoredName(env.now, RandomSuffix(env.draw), f.originalName), AltText(o, CorrectedReading)))
  {
    var name := StoredName(env.now, RandomSuffix(env.draw), f.originalName);
    StoredNameHasNoChar(env.now, RandomSuffix(env.draw), f.originalName, '\\');
    StoredNameHasNoChar(env.now, RandomSuffix(env.draw), f.originalName, '/');
    PortableRewriteUpload(env.root, env.sep, name);
    PhotoCellOf(o, StoredPhotoPath(f, env), CorrectedReading, localeDate);
    LinkOfUploads(name);
  }
}

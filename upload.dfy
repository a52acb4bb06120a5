/**
 * Photo ingest on the server: which uploaded file parts are admitted (the
 * multer `fileFilter` and `limits.fileSize`), the name a stored photo gets
 * (`<timestamp>-<random>-<original name>`), and the path recorded for it.
 * The clock and the random draw are parameters; disk writes are not modelled.
 */
module Upload {
  import opened Wrappers
  import opened Text

  /** The `limits.fileSize` ceiling, in bytes: 5 MiB. */
  const MaxFileSize: nat := 5 * 1024 * 1024

  /** Accepted MIME types start with this prefix (compared case-sensitively). */
  const ImagePrefix: string := "image/"

  /** What multer reports of an incoming `photo` file part. */
  datatype FileInfo = FileInfo(originalName: string, mimeType: string, size: nat)

  /** Why a file part was refused: the filter's "Only image files are allowed!" or the size limit. */
  datatype UploadError = NotAnImage | FileTooLarge

  /**
   * Admission of one file part: the type filter runs first, the size limit
   * second. `None` means the file is stored.
   */
  function Admit(f: FileInfo): (r: Option<UploadError>)
    ensures r == Some(NotAnImage) <==> !StartsWith(f.mimeType, ImagePrefix)
    ensures r == Some(FileTooLarge) <==> StartsWith(f.mimeType, ImagePrefix) && f.size > MaxFileSize
    ensures r == None <==> StartsWith(f.mimeType, ImagePrefix) && f.size <= MaxFileSize
  {
    if !StartsWith(f.mimeType, ImagePrefix) then Some(NotAnImage)
    else if f.size > MaxFileSize then Some(FileTooLarge)
    else None
  }

  /** A 6 MiB image is refused for its size; a non-image is refused for its type whatever its size. */
  lemma AdmitExamples()
    ensures Admit(FileInfo("me.png", "image/png", 6 * 1024 * 1024)) == Some(FileTooLarge)
    ensures Admit(FileInfo("me.png", "image/png", MaxFileSize)) == None
    ensures Admit(FileInfo("cv.pdf", "application/pdf", 10)) == Some(NotAnImage)
    ensures Admit(FileInfo("me.png", "IMAGE/PNG", 10)) == Some(NotAnImage)
  {
    assert StartsWith("image/png", ImagePrefix);
    assert "application/pdf"[..6][0] != ImagePrefix[0];
    assert "IMAGE/PNG"[..6][0] != ImagePrefix[0];
  }

  /**
   * `Math.round(Math.random() * 1E9)` for a draw `u` of `Math.random()`,
   * which lies in [0, 1); for non-negative arguments `Math.round` is
   * `floor(x + 0.5)`.
   */
  function RandomSuffix(u: real): (r: nat)
    requires 0.0 <= u < 1.0
    ensures r <= 1000000000
  {
    (u * 1000000000.0 + 0.5).Floor
  }

  /** The `filename` callback: `Date.now() + '-' + suffix + '-' + originalname`. */
  function StoredName(timestamp: nat, suffix: nat, originalName: string): string
  {
    NatToDecimal(timestamp) + "-" + NatToDecimal(suffix) + "-" + originalName
  }

  /**
   * Splits a stored name at its first two dashes, reading the timestamp and
   * the random suffix back as numbers; the rest is the original name.
   */
  function ParseStoredName(name: string): Option<(nat, nat, string)>
  {
    match IndexOf(name, '-')
    case None => None
    case Some(a) =>
      var rest := name[a + 1..];
      match IndexOf(rest, '-')
      case None => None
      case Some(b) =>
        var t, u := name[..a], rest[..b];
        if t != [] && u != [] && AllDigits(t) && AllDigits(u)
        then Some((DecimalValue(t), DecimalValue(u), rest[b + 1..]))
        else None
  }

  /** The timestamp, the suffix and the original name can all be read back from a stored name. */
  lemma ParseStoredNameRoundTrip(timestamp: nat, suffix: nat, originalName: string)
    ensures ParseStoredName(StoredName(timestamp, suffix, originalName)) == Some((timestamp, suffix, originalName))
  {
    var t, u := NatToDecimal(timestamp), NatToDecimal(suffix);
    var name := StoredName(timestamp, suffix, originalName);
    DecimalHasNoChar(timestamp, '-');
    DecimalHasNoChar(suffix, '-');
    assert name == t + ['-'] + (u + "-" + originalName);
    IndexOfAfterPrefix(t, '-', u + "-" + originalName);
    var rest := name[|t| + 1..];
    assert rest == u + ['-'] + originalName;
    IndexOfAfterPrefix(u, '-', originalName);
    assert name[..|t|] == t;
    assert rest[..|u|] == u;
    assert rest[|u| + 1..] == originalName;
    DecimalRoundTrip(timestamp);
    DecimalRoundTrip(suffix);
  }

  /** A stored name ends with the uploader's original file name. */
  lemma StoredNameEndsWithOriginal(timestamp: nat, suffix: nat, originalName: string)
    ensures EndsWith(StoredName(timestamp, suffix, originalName), originalName)
  {
    var name := StoredName(timestamp, suffix, originalName);
    assert name[|name| - |originalName|..] == originalName;
  }

  /** Two uploads whose timestamp or random suffix differ get different stored names, even for the same original name. */
  lemma StoredNameInjective(t1: nat, s1: nat, n1: string, t2: nat, s2: nat, n2: string)
    requires (t1, s1, n1) != (t2, s2, n2)
    ensures StoredName(t1, s1, n1) != StoredName(t2, s2, n2)
  {
    ParseStoredNameRoundTrip(t1, s1, n1);
    ParseStoredNameRoundTrip(t2, s2, n2);
  }

  /**
   * multer's `file.path`: the stored name inside `path.join(__dirname, 'uploads')`,
   * joined with the platform separator `sep`. `path.join` normalises; plain
   * concatenation agrees with it because `root` is taken to be a normalised
   * directory with no trailing separator (so a root of `/` is not covered).
   */
  function UploadPath(root: string, sep: char, name: string): string
  {
    root + [sep] + "uploads" + [sep] + name
  }

  /**
   * Receiving the `photo` part of a submission at clock reading `now` with
   * random draw `u`: the path of the stored file, or why it was refused.
   */
  function Receive(f: FileInfo, now: nat, u: real, root: string, sep: char): (r: Result<string, UploadError>)
    requires 0.0 <= u < 1.0
    ensures r.Err? <==> Admit(f).Some?
    ensures r.Err? ==> r.error == Admit(f).value
    ensures r.Ok? ==> exists suffix: nat :: suffix <= 1000000000
                        && r.value == UploadPath(root, sep, StoredName(now, suffix, f.originalName))
  {
    match Admit(f)
    case Some(e) => Err(e)
    case None =>
      var suffix := RandomSuffix(u);
      Ok(UploadPath(root, sep, StoredName(now, suffix, f.originalName)))
  }
}

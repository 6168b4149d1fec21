/**
 * The default output file: without `--output`, the URL's host made into a
 * path and given the extension "mp4" the way `PathBuf::set_extension` does
 * it on Unix.
 */
module OutputPath {
  import opened Wrappers

  /** A URL host; the URL syntax never lets a host contain a path separator. */
  type HostName = s: string | '/' !in s

  /** The index of the last '.' in s, if there is one. */
  function LastDot(s: string): (r: Option<nat>)
    ensures r.Some? ==> r.value < |s| && s[r.value] == '.' && '.' !in s[r.value + 1..]
    ensures r.None? ==> '.' !in s
    decreases |s|
  {
    if s == [] then None
    else if s[|s| - 1] == '.' then Some(|s| - 1)
    else LastDot(s[..|s| - 1])
  }

  /**
   * The file name of a one-component path: none for the empty path, "."
   * and "..", the whole path otherwise.
   */
  function FileName(p: HostName): (r: Option<string>)
    ensures r.None? <==> p == "" || p == "." || p == ".."
    ensures r.Some? ==> r.value == p
  {
    if p == "" || p == "." || p == ".." then None else Some(p)
  }

  /**
   * A file name split at its last dot into (before, after); a name with no
   * dot has no "before", and a name whose only leading part is empty (".x")
   * or that is ".." has no extension at all.
   */
  function SplitAtDot(name: string): (r: (Option<string>, Option<string>))
  {
    if name == ".." then (Some(name), None)
    else
      match LastDot(name)
      case None => (None, Some(name))
      case Some(i) =>
        if i == 0 then (Some(name), None)
        else (Some(name[..i]), Some(name[i + 1..]))
  }

  /**
   * `Path::file_stem`: the file name cut before its last dot, or the whole
   * name when it has no dot or its only dot leads; a non-empty prefix of
   * the path.
   */
  function FileStem(p: HostName): (r: Option<string>)
    ensures r.None? <==> FileName(p).None?
    ensures r.Some? ==> r.value != [] && r.value <= p
    ensures FileName(p).Some? && LastDot(p).Some? && LastDot(p).value > 0 ==> r == Some(p[..LastDot(p).value])
    ensures FileName(p).Some? && (LastDot(p).None? || LastDot(p).value == 0) ==> r == Some(p)
  {
    match FileName(p)
    case None => None
    case Some(name) =>
      var (before, after) := SplitAtDot(name);
      if before.Some? then before else after
  }

  /** `Path::extension`: the text after the last dot of the file name, when there is a stem before it. */
  function Extension(p: HostName): (r: Option<string>)
    ensures r.Some? <==> FileName(p).Some? && LastDot(p).Some? && LastDot(p).value > 0
    ensures r.Some? ==> r.value == p[LastDot(p).value + 1..] && '.' !in r.value
  {
    match FileName(p)
    case None => None
    case Some(name) =>
      var (before, after) := SplitAtDot(name);
      if before.Some? then after else None
  }

  /**
   * `PathBuf::set_extension`: truncate the path right after its file stem
   * and, for a non-empty extension, append '.' and the extension; a path
   * without a file name is left as it is.
   */
  function SetExtension(p: HostName, ext: string): (r: string)
    ensures FileName(p).None? ==> r == p
  {
    match FileStem(p)
    case None => p
    case Some(stem) => p[..|stem|] + (if ext == "" then "" else "." + ext)
  }

  /**
   * Replacing the extension keeps the file stem and leaves exactly the new
   * extension: the stem and the extension of the result are those asked for.
   */
  lemma SetExtensionReplaces(p: HostName, ext: string)
    requires FileName(p).Some?
    requires ext != "" && '.' !in ext && '/' !in ext
    ensures var r := SetExtension(p, ext);
      '/' !in r && r == FileStem(p).value + "." + ext &&
      FileStem(r) == FileStem(p) && Extension(r) == Some(ext)
  {
    var stem := FileStem(p).value;
    var r := SetExtension(p, ext);
    assert p[..|stem|] == stem;
    assert r == stem + "." + ext;
    assert r[..|stem|] == stem && r[|stem| + 1..] == ext;
    LastDotAfter(stem, ext);
    assert FileName(r) == Some(r);
  }

  /** The last dot of stem + "." + ext, for an extension without dots, is the one added. */
  lemma LastDotAfter(stem: string, ext: string)
    requires '.' !in ext
    ensures LastDot(stem + "." + ext) == Some(|stem|)
    decreases |ext|
  {
    var s := stem + "." + ext;
    if ext == [] {
      assert s[|s| - 1] == '.';
    } else {
      assert s[|s| - 1] == ext[|ext| - 1];
      assert s[..|s| - 1] == stem + "." + ext[..|ext| - 1];
      LastDotAfter(stem, ext[..|ext| - 1]);
    }
  }

  /** Setting the same extension twice changes nothing more than setting it once. */
  lemma SetExtensionIdempotent(p: HostName, ext: string)
    requires ext != "" && '.' !in ext && '/' !in ext
    ensures var r := SetExtension(p, ext); '/' !in r && SetExtension(r, ext) == r
  {
    if FileName(p).Some? {
      SetExtensionReplaces(p, ext);
      var r := SetExtension(p, ext);
      SetExtensionReplaces(r, ext);
    }
  }

  datatype PathError = MissingHost

  /**
   * The output destination: the `--output` path when given; otherwise the
   * host with extension "mp4", and a URL without a host is an error (the
   * source's `unwrap` panics).
   */
  function Destination(output: Option<string>, host: Option<HostName>): (r: Result<string, PathError>)
    ensures output.Some? ==> r == Success(output.value)
    ensures output.None? && host.None? ==> r == Failure(MissingHost)
    ensures output.None? && host.Some? && FileName(host.value).None? ==> r == Success(host.value)
    ensures output.None? && host.Some? && FileName(host.value).Some? ==>
      r.Success? && '/' !in r.value &&
      FileStem(r.value) == FileStem(host.value) && Extension(r.value) == Some("mp4")
  {
    match output
    case Some(path) => Success(path)
    case None =>
      match host
      case None => Failure(MissingHost)
      case Some(h) =>
        if FileName(h).Some? then SetExtensionReplaces(h, "mp4"); Success(SetExtension(h, "mp4"))
        else Success(SetExtension(h, "mp4"))
  }

  /** "example.com" becomes "example.mp4": the last extension is replaced. */
  lemma DottedHostDestination()
    ensures Destination(None, Some("example.com")) == Success("example.mp4")
  {
    var host: HostName := "example.com";
    assert host == "example" + "." + "com";
    LastDotAfter("example", "com");
    assert host[..7] == "example";
    assert FileStem(host) == Some("example");
    assert SetExtension(host, "mp4") == "example" + "." + "mp4" == "example.mp4";
  }

  /** "www.example.com" becomes "www.example.mp4": only the text after the last dot is replaced. */
  lemma MultiDotHostDestination()
    ensures Destination(None, Some("www.example.com")) == Success("www.example.mp4")
  {
    var host: HostName := "www.example.com";
    assert host == "www.example" + "." + "com";
    LastDotAfter("www.example", "com");
    assert host[..11] == "www.example";
    assert FileStem(host) == Some("www.example");
    assert SetExtension(host, "mp4") == "www.example" + "." + "mp4" == "www.example.mp4";
  }

  /** "localhost" becomes "localhost.mp4", and a URL without a host has no destination. */
  lemma PlainHostDestination()
    ensures Destination(None, Some("localhost")) == Success("localhost.mp4")
    ensures Destination(None, None) == Failure(MissingHost)
  {
    var host: HostName := "localhost";
    assert '.' !in host;
    assert FileStem(host) == Some(host);
    assert SetExtension(host, "mp4") == "localhost" + "." + "mp4" == "localhost.mp4";
  }
}

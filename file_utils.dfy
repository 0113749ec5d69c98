/**
 * `FileUtils`: joining a base path with names, using the separator the base ends with,
 * and the MIME checks on an upload's content type.
 */
module FileUtils {
  import opened Wrappers
  import opened Strs

  /** The separator `join` uses: the one the base ends with, `/` first, else the platform's. */
  function Separator(filePath: string, platformSep: char): char {
    if EndsWith(filePath, "/") then '/'
    else if EndsWith(filePath, "\\") then '\\'
    else platformSep
  }

  /** The base with one trailing `/` or `\` removed (`StrUtil.removeSuffix`). */
  function Base(filePath: string): (r: string)
    ensures EndsWith(filePath, "/") ==> r + "/" == filePath
    ensures !EndsWith(filePath, "/") && EndsWith(filePath, "\\") ==> r + "\\" == filePath
    ensures !EndsWith(filePath, "/") && !EndsWith(filePath, "\\") ==> r == filePath
  {
    if EndsWith(filePath, "/") || EndsWith(filePath, "\\") then filePath[..|filePath| - 1] else filePath
  }

  /** `join(filePath, names...)`; the platform separator is a parameter. */
  function JoinPath(filePath: string, names: seq<string>, platformSep: char): string {
    Join([Separator(filePath, platformSep)], [Base(filePath)] + names)
  }

  /** With at least one name, the result is the base, the separator, and the names joined by it. */
  lemma JoinPathShape(filePath: string, names: seq<string>, platformSep: char)
    ensures names == [] ==> JoinPath(filePath, names, platformSep) == Base(filePath)
    ensures names != [] ==>
      JoinPath(filePath, names, platformSep) == Base(filePath) + [Separator(filePath, platformSep)] + Join([Separator(filePath, platformSep)], names)
  {
    var parts := [Base(filePath)] + names;
    if names != [] {
      assert parts[1..] == names;
    }
  }

  /**
   * Splitting a joined path on the separator it used gives the pieces of the base and
   * then the names themselves, when no name holds that separator.
   */
  lemma JoinPathSplits(filePath: string, names: seq<string>, platformSep: char)
    requires names != []
    requires forall i :: 0 <= i < |names| ==> Separator(filePath, platformSep) !in names[i]
    ensures var sep := Separator(filePath, platformSep);
      Split(JoinPath(filePath, names, platformSep), sep) == Split(Base(filePath), sep) + names
  {
    var sep := Separator(filePath, platformSep);
    JoinPathShape(filePath, names, platformSep);
    SplitAround(Base(filePath), sep, Join([sep], names));
    SplitJoin(names, sep);
  }

  /** `getContentType`: a missing content type reads as the empty text. */
  function ContentType(contentType: Option<string>): string {
    if contentType.Some? then contentType.value else ""
  }

  predicate IsMp3(contentType: Option<string>) {
    EqualsIgnoreCase(ContentType(contentType), "audio/mpeg")
  }

  /** `isMp4` compares ignoring case as `isMp3` does. */
  predicate IsMp4(contentType: Option<string>) {
    EqualsIgnoreCase(ContentType(contentType), "video/mp4")
  }

  /** No content type is both, and a missing one is neither. */
  lemma MimeChecks(contentType: Option<string>)
    ensures !(IsMp3(contentType) && IsMp4(contentType))
    ensures contentType.None? ==> !IsMp3(contentType) && !IsMp4(contentType)
  {
    assert |"audio/mpeg"| == 10 && |"video/mp4"| == 9;
  }

  /** Example: the type is compared ignoring letter case, so `VIDEO/MP4` is an MP4 type. */
  lemma Mp4UpperCase(contentType: string)
    requires contentType == "VIDEO/MP4"
    ensures IsMp4(Some(contentType))
  {
    var t := "video/mp4";
    assert forall i :: 0 <= i < |t| ==> CharEqualsIgnoreCase(contentType[i], t[i]);
  }
}

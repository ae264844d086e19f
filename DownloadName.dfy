/**
 * The name under which `/download` offers the video (main.py:163, 166, 199): the title,
 * or "video" when there is none, stripped, with newlines turned into spaces, cut to 100
 * characters, with every character outside `[\w\- .]` replaced by `_`, and ".mp4" appended.
 */
module DownloadName {
  import opened Wrappers
  import opened Text

  /** The `[:100]` cut on the title. */
  const MaxTitleLength: nat := 100

  /** The extension appended to every name. */
  const Extension: string := ".mp4"

  /** What the metadata lookup before the download gave: a record with an optional title, or a failure. */
  datatype Lookup = Found(title: Option<string>) | Failed

  /** `[\w\- .]`: the characters the name keeps. */
  predicate IsSafeChar(c: char) {
    IsWordChar(c) || c == '-' || c == ' ' || c == '.'
  }

  /** `info.get("title") or "video"`: an absent or empty title falls back to "video". */
  function TitleOrDefault(title: Option<string>): (r: string)
    ensures title.Some? && title.value != [] ==> r == title.value
    ensures title.None? || title.value == [] ==> r == "video"
  {
    if title.Some? && title.value != "" then title.value else "video"
  }

  /** `s.replace("\n", " ")`. */
  function ReplaceNewlines(s: string): (r: string)
    ensures |r| == |s|
    ensures forall i :: 0 <= i < |s| ==> r[i] == if s[i] == '\n' then ' ' else s[i]
  {
    if s == [] then [] else [if s[0] == '\n' then ' ' else s[0]] + ReplaceNewlines(s[1..])
  }

  /** Python's slice `s[:n]`, which is all of `s` when `s` is shorter. */
  function Take(s: string, n: nat): (r: string)
    ensures |r| == if |s| <= n then |s| else n
    ensures r == s[..|r|]
  {
    if |s| <= n then s else s[..n]
  }

  /**
   * `title_for_name`: from the looked-up title when the lookup succeeded
   * (main.py:163), "video" when it failed (main.py:166).
   */
  function TitleForName(lookup: Lookup): (r: string)
    ensures |r| <= MaxTitleLength
    ensures forall i :: 0 <= i < |r| ==> r[i] != '\n'
  {
    match lookup
    case Found(title) => Take(ReplaceNewlines(Strip(TitleOrDefault(title))), MaxTitleLength)
    case Failed => "video"
  }

  /** `re.sub(r"[^\w\- .]", "_", s)`. */
  function Sanitize(s: string): (r: string)
    ensures |r| == |s|
    ensures forall i :: 0 <= i < |s| ==> r[i] == if IsSafeChar(s[i]) then s[i] else '_'
  {
    if s == [] then [] else [if IsSafeChar(s[0]) then s[0] else '_'] + Sanitize(s[1..])
  }

  /** The part of a file name before its extension. */
  function Body(lookup: Lookup): string {
    Sanitize(TitleForName(lookup))
  }

  /** `filename_safe` (main.py:199). */
  function FileName(lookup: Lookup): string {
    Body(lookup) + Extension
  }

  /**
   * Every file name ends in ".mp4", and what comes before is at most 100 characters long,
   * holds no newline and consists of word characters, `-`, space and `.` only.
   */
  lemma FileNameShape(lookup: Lookup)
    ensures var name := FileName(lookup);
            |name| >= |Extension| && name[|name| - |Extension|..] == Extension &&
            name[..|name| - |Extension|] == Body(lookup)
    ensures |Body(lookup)| <= MaxTitleLength
    ensures forall i :: 0 <= i < |Body(lookup)| ==> IsSafeChar(Body(lookup)[i]) && Body(lookup)[i] != '\n'
  {
    var body := Body(lookup);
    forall i | 0 <= i < |body|
      ensures IsSafeChar(body[i]) && body[i] != '\n'
    {
    }
  }

  /** "video" is stripped, newline-free and short: it is its own title for a name. */
  lemma VideoTitleKept()
    ensures Take(ReplaceNewlines(Strip("video")), MaxTitleLength) == "video"
  {
    StripUnchanged("video");
    assert ReplaceNewlines("video") == "video";
  }

  /** "video" consists of safe characters only. */
  lemma VideoIsSafe()
    ensures Sanitize("video") == "video"
  {
    var v := "video";
    assert forall i :: 0 <= i < |v| ==> 'a' <= v[i] <= 'z';
    SanitizeFixedPoints(v);
  }

  /** With no title, an empty title, or no metadata at all, the name is "video.mp4". */
  lemma NoTitleGivesVideo(lookup: Lookup)
    requires lookup.Failed? || lookup.title.None? || lookup.title.value == ""
    ensures FileName(lookup) == "video.mp4"
  {
    if lookup.Found? {
      assert TitleOrDefault(lookup.title) == "video";
      VideoTitleKept();
    }
    assert TitleForName(lookup) == "video";
    VideoIsSafe();
    assert Body(lookup) == "video";
  }

  /** A title made of whitespace only is stripped to nothing: the name is the bare extension. */
  lemma BlankTitleGivesBareExtension(title: string)
    requires title != [] && forall i :: 0 <= i < |title| ==> IsSpace(title[i])
    ensures FileName(Found(Some(title))) == ".mp4"
  {
  }

  /**
   * A title that already is a safe name, is no longer than 100 characters and has no
   * whitespace at either end is used unchanged.
   */
  lemma SafeTitleKept(title: string)
    requires title != [] && |title| <= MaxTitleLength
    requires forall i :: 0 <= i < |title| ==> IsSafeChar(title[i])
    requires title[0] != ' ' && title[|title| - 1] != ' '
    ensures FileName(Found(Some(title))) == title + Extension
  {
    assert TitleOrDefault(Some(title)) == title;
    StripUnchanged(title);
    var replaced := ReplaceNewlines(title);
    forall i | 0 <= i < |title|
      ensures replaced[i] == title[i]
    {
      assert IsSafeChar(title[i]);
    }
    assert replaced == title;
    assert TitleForName(Found(Some(title))) == title;
    SanitizeFixedPoints(title);
    assert Body(Found(Some(title))) == title;
  }

  /** Sanitizing a sanitized name changes nothing. */
  lemma SanitizeIdempotent(s: string)
    ensures Sanitize(Sanitize(s)) == Sanitize(s)
  {
  }

  /**
   * Sanitizing keeps exactly the safe characters: a string is its own sanitized form if and
   * only if every character in it is safe.
   */
  lemma SanitizeFixedPoints(s: string)
    ensures Sanitize(s) == s <==> forall i :: 0 <= i < |s| ==> IsSafeChar(s[i])
  {
  }
}

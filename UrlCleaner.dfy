/**
 * `clean_youtube_url` (main.py:78-87): reduce a user-supplied link to a bare watch URL.
 *
 * The two regular expressions of the source are modelled as explicit searches.  Each
 * pattern is a literal prefix with two optional parts (`https?`, `(?:www\.)?`) and, for the
 * second, an alternation; expanded, it is a finite list of literal prefixes, listed here in
 * the order Python's backtracking tries them (`s` before no `s`, `www.` before none, the left
 * alternative first).  The prefix is followed by the greedy class run `[\w-]{6,}`.  A search
 * tries every start position from the left and stops at the first one that matches.
 */
module UrlCleaner {
  import opened Wrappers
  import opened Text

  /** `[\w-]`: the characters of a video id. */
  predicate IsIdChar(c: char) {
    IsWordChar(c) || c == '-'
  }

  /** The `{6,}` bound on the id run. */
  const MinIdLength: nat := 6

  /** `https?://(?:www\.)?youtube\.com/shorts/`, expanded. */
  const ShortsPrefixes: seq<string> := [
    "https://www.youtube.com/shorts/", "https://youtube.com/shorts/",
    "http://www.youtube.com/shorts/", "http://youtube.com/shorts/"
  ]

  /** `https?://(?:www\.)?(?:youtube\.com/watch\?v=|youtu\.be/)`, expanded. */
  const WatchPrefixes: seq<string> := [
    "https://www.youtube.com/watch?v=", "https://www.youtu.be/",
    "https://youtube.com/watch?v=", "https://youtu.be/",
    "http://www.youtube.com/watch?v=", "http://www.youtu.be/",
    "http://youtube.com/watch?v=", "http://youtu.be/"
  ]

  /** The form a shorts link is rewritten to, followed by its id. */
  const CanonicalWatch: string := "https://www.youtube.com/watch?v="

  /** Where a match starts, where its id starts, and where it ends (exclusive). */
  datatype Match = Match(start: nat, idStart: nat, end: nat)

  predicate StartsAt(s: string, j: nat, p: string) {
    j + |p| <= |s| && s[j..j + |p|] == p
  }

  /** Length of the longest run of id characters in `s` starting at `k` (greedy `[\w-]*`). */
  function IdRun(s: string, k: nat): (n: nat)
    requires k <= |s|
    ensures k + n <= |s|
    ensures forall i :: k <= i < k + n ==> IsIdChar(s[i])
    ensures k + n == |s| || !IsIdChar(s[k + n])
    decreases |s| - k
  {
    if k < |s| && IsIdChar(s[k]) then 1 + IdRun(s, k + 1) else 0
  }

  /** The pattern matches at `j` through prefix `p`: `p` is there and `[\w-]{6,}` follows. */
  predicate PrefixMatches(s: string, j: nat, p: string) {
    StartsAt(s, j, p) && IdRun(s, j + |p|) >= MinIdLength
  }

  /** The match the pattern makes at `j` through prefix `p`: the id run is taken whole. */
  function MatchThrough(s: string, j: nat, p: string): Match
    requires StartsAt(s, j, p)
  {
    Match(j, j + |p|, j + |p| + IdRun(s, j + |p|))
  }

  /** Some alternative of `alts` matches at `j`. */
  predicate MatchesAt(s: string, j: nat, alts: seq<string>) {
    exists k :: 0 <= k < |alts| && PrefixMatches(s, j, alts[k])
  }

  /**
   * The first alternative from `k0` on that matches at `j`, as the regular-expression
   * engine tries them in order.
   */
  function FirstAlt(s: string, j: nat, alts: seq<string>, k0: nat): (r: Option<nat>)
    requires k0 <= |alts|
    ensures r.Some? ==> k0 <= r.value < |alts| && PrefixMatches(s, j, alts[r.value])
    ensures r.Some? ==> forall k :: k0 <= k < r.value ==> !PrefixMatches(s, j, alts[k])
    ensures r.None? ==> forall k :: k0 <= k < |alts| ==> !PrefixMatches(s, j, alts[k])
    decreases |alts| - k0
  {
    if k0 == |alts| then None
    else if PrefixMatches(s, j, alts[k0]) then Some(k0)
    else FirstAlt(s, j, alts, k0 + 1)
  }

  /** `re.match` of the pattern at position `j`: the first alternative that matches decides. */
  function MatchAt(s: string, j: nat, alts: seq<string>): Option<Match> {
    match FirstAlt(s, j, alts, 0)
    case Some(k) => Some(MatchThrough(s, j, alts[k]))
    case None => None
  }

  /** The pattern fails at `j` exactly when no alternative matches there. */
  lemma MatchAtFails(s: string, j: nat, alts: seq<string>)
    ensures MatchAt(s, j, alts).None? <==> !MatchesAt(s, j, alts)
  {
  }

  /** `re.search` from position `from`: the leftmost start at which the pattern matches. */
  function Search(s: string, alts: seq<string>, from: nat): (r: Option<Match>)
    ensures r.Some? ==> from <= r.value.start <= |s| && MatchAt(s, r.value.start, alts) == r
    ensures r.Some? ==> forall j :: from <= j < r.value.start ==> MatchAt(s, j, alts).None?
    ensures r.None? ==> forall j :: from <= j <= |s| ==> MatchAt(s, j, alts).None?
    decreases |s| + 1 - from
  {
    if from > |s| then None
    else
      var here := MatchAt(s, from, alts);
      if here.Some? then here else Search(s, alts, from + 1)
  }

  /** `clean_youtube_url(url)`: strip the input, then rewrite or cut out the link in it. */
  function Clean(url: string): string {
    CleanStripped(Strip(url))
  }

  /**
   * The part of `clean_youtube_url` after `url.strip()`: a shorts link is rewritten to
   * the canonical watch form; else the watch or youtu.be link is cut out; else `t` stays.
   */
  function CleanStripped(t: string): string {
    match Search(t, ShortsPrefixes, 0)
    case Some(m) => CanonicalWatch + t[m.idStart..m.end]
    case None =>
      match Search(t, WatchPrefixes, 0)
      case Some(m) => t[m.start..m.end]
      case None => t
  }

  /** Two prefixes that both occur at `j` agree on every position they share. */
  lemma SameCharAt(s: string, j: nat, p: string, q: string, k: nat)
    requires StartsAt(s, j, p) && StartsAt(s, j, q) && k < |p| && k < |q|
    ensures p[k] == q[k]
  {
    assert s[j..j + |p|][k] == s[j + k] == s[j..j + |q|][k];
  }

  /** No two alternatives of `alts` can occur at the same position of any string. */
  ghost predicate Exclusive(alts: seq<string>) {
    forall s: string, j: nat, a, b ::
      0 <= a < |alts| && 0 <= b < |alts| && a != b && StartsAt(s, j, alts[a]) ==>
      !StartsAt(s, j, alts[b])
  }

  /** The characters that tell the shorts alternatives apart: `s` of `https`, `www.`. */
  lemma ShortsPrefixChars(a: nat)
    requires a < |ShortsPrefixes|
    ensures |ShortsPrefixes[a]| >= 26 && ShortsPrefixes[a][|ShortsPrefixes[a]| - 1] == '/'
    ensures ShortsPrefixes[a][4] == if a < 2 then 's' else ':'
    ensures ShortsPrefixes[a][if a < 2 then 8 else 7] == if a == 0 || a == 2 then 'w' else 'y'
  {
  }

  /** The shorts alternatives differ in the scheme or else in `www.`. */
  lemma ShortsExclusive()
    ensures Exclusive(ShortsPrefixes)
  {
    forall s: string, j: nat, a, b |
      0 <= a < |ShortsPrefixes| && 0 <= b < |ShortsPrefixes| && a != b &&
      StartsAt(s, j, ShortsPrefixes[a])
      ensures !StartsAt(s, j, ShortsPrefixes[b])
    {
      ShortsPrefixChars(a);
      ShortsPrefixChars(b);
      if StartsAt(s, j, ShortsPrefixes[b]) {
        SameCharAt(s, j, ShortsPrefixes[a], ShortsPrefixes[b], 4);
        SameCharAt(s, j, ShortsPrefixes[a], ShortsPrefixes[b], if a < 2 then 8 else 7);
      }
    }
  }

  /** Whether watch alternative `a` uses `https`. */
  predicate WatchSecure(a: nat) {
    a < 4
  }

  /** Whether watch alternative `a` has `www.`. */
  predicate WatchWww(a: nat) {
    a == 0 || a == 1 || a == 4 || a == 5
  }

  /** Whether watch alternative `a` is on `youtube.com/watch?v=` rather than `youtu.be/`. */
  predicate WatchLong(a: nat) {
    a == 0 || a == 2 || a == 4 || a == 6
  }

  /** Where the host starts in watch alternative `a`. */
  function WatchHostAt(a: nat): nat {
    if WatchSecure(a) then 8 else 7
  }

  /** Where `youtube.com` and `youtu.be` first differ in watch alternative `a`. */
  function WatchKindAt(a: nat): nat {
    WatchHostAt(a) + (if WatchWww(a) then 4 else 0) + 5
  }

  /**
   * The characters that tell the watch alternatives apart: `s` of `https`, `www.`, and
   * `youtube.com` against `youtu.be`.
   */
  lemma WatchPrefixChars(a: nat)
    requires a < |WatchPrefixes|
    ensures |WatchPrefixes[a]| > WatchKindAt(a)
    ensures WatchPrefixes[a][4] == if WatchSecure(a) then 's' else ':'
    ensures WatchPrefixes[a][WatchHostAt(a)] == if WatchWww(a) then 'w' else 'y'
    ensures WatchPrefixes[a][WatchKindAt(a)] == if WatchLong(a) then 'b' else '.'
  {
  }

  /** Two watch alternatives that agree on scheme, `www.` and host are the same alternative. */
  lemma WatchCoordinatesDiffer(a: nat, b: nat)
    requires a < 8 && b < 8 && a != b
    ensures WatchSecure(a) != WatchSecure(b) || WatchWww(a) != WatchWww(b) || WatchLong(a) != WatchLong(b)
  {
  }

  /** Every watch alternative starts with `h`. */
  lemma WatchPrefixStart(a: nat)
    requires a < |WatchPrefixes|
    ensures |WatchPrefixes[a]| > 0 && WatchPrefixes[a][0] == 'h'
  {
  }

  /** Two strings that differ at a shared position cannot both occur at the same place. */
  lemma NotBothAt(s: string, j: nat, p: string, q: string, k: nat)
    requires k < |p| && k < |q| && p[k] != q[k]
    ensures !(StartsAt(s, j, p) && StartsAt(s, j, q))
  {
    if StartsAt(s, j, p) && StartsAt(s, j, q) {
      SameCharAt(s, j, p, q, k);
    }
  }

  /** Two different watch alternatives differ in the scheme, else in `www.`, else in the host. */
  lemma WatchPrefixesDiffer(a: nat, b: nat) returns (k: nat)
    requires a < |WatchPrefixes| && b < |WatchPrefixes| && a != b
    ensures k < |WatchPrefixes[a]| && k < |WatchPrefixes[b]| && WatchPrefixes[a][k] != WatchPrefixes[b][k]
  {
    WatchPrefixChars(a);
    WatchPrefixChars(b);
    WatchCoordinatesDiffer(a, b);
    if WatchSecure(a) != WatchSecure(b) {
      k := 4;
    } else if WatchWww(a) != WatchWww(b) {
      k := WatchHostAt(a);
    } else {
      k := WatchKindAt(a);
    }
  }

  lemma WatchPairExclusive(s: string, j: nat, a: nat, b: nat)
    requires a < |WatchPrefixes| && b < |WatchPrefixes| && a != b
    requires StartsAt(s, j, WatchPrefixes[a])
    ensures !StartsAt(s, j, WatchPrefixes[b])
  {
    var k := WatchPrefixesDiffer(a, b);
    NotBothAt(s, j, WatchPrefixes[a], WatchPrefixes[b], k);
  }

  lemma WatchExclusive()
    ensures Exclusive(WatchPrefixes)
  {
    forall s: string, j: nat, a, b |
      0 <= a < |WatchPrefixes| && 0 <= b < |WatchPrefixes| && a != b &&
      StartsAt(s, j, WatchPrefixes[a])
      ensures !StartsAt(s, j, WatchPrefixes[b])
    {
      WatchPairExclusive(s, j, a, b);
    }
  }

  /** Whichever alternative matches at `j` is the one `MatchAt` reports. */
  lemma MatchAtIsThrough(s: string, j: nat, alts: seq<string>, k: nat)
    requires Exclusive(alts)
    requires k < |alts| && PrefixMatches(s, j, alts[k])
    ensures MatchAt(s, j, alts) == Some(MatchThrough(s, j, alts[k]))
  {
  }

  /**
   * `re.search` finds the leftmost match: when an alternative matches at `j` and nothing
   * matches before `j`, the search reports exactly that match.
   */
  lemma SearchFindsLeftmost(s: string, alts: seq<string>, j: nat, k: nat)
    requires Exclusive(alts)
    requires k < |alts| && PrefixMatches(s, j, alts[k])
    requires forall i :: 0 <= i < j ==> !MatchesAt(s, i, alts)
    ensures Search(s, alts, 0) == Some(MatchThrough(s, j, alts[k]))
  {
    MatchAtIsThrough(s, j, alts, k);
    var r := Search(s, alts, 0);
    assert j <= |s|;
    assert r.Some?;
    var start := r.value.start;
    assert start <= j;
    assert MatchesAt(s, start, alts);
    assert start == j;
    assert r == MatchAt(s, j, alts);
  }

  /** `re.search` fails exactly when the pattern matches nowhere. */
  lemma SearchFindsNothing(s: string, alts: seq<string>)
    requires forall i :: 0 <= i <= |s| ==> !MatchesAt(s, i, alts)
    ensures Search(s, alts, 0) == None
  {
    var r := Search(s, alts, 0);
    if r.Some? {
      MatchAtFails(s, r.value.start, alts);
    }
  }

  /**
   * A match through `p` carries an id of at least `MinIdLength` id characters, and the id
   * is the whole run: the character after it, if any, is not an id character.
   */
  lemma MatchThroughId(t: string, j: nat, p: string)
    requires PrefixMatches(t, j, p)
    ensures var m := MatchThrough(t, j, p);
            m.start == j && m.idStart == j + |p| &&
            m.idStart + MinIdLength <= m.end <= |t| &&
            (forall i :: m.idStart <= i < m.end ==> IsIdChar(t[i])) &&
            (m.end == |t| || !IsIdChar(t[m.end]))
  {
  }

  /** A match `re.search` reports is made through one of the alternatives, at its start. */
  lemma SearchFoundThrough(s: string, alts: seq<string>) returns (k: nat)
    requires Search(s, alts, 0).Some?
    ensures var m := Search(s, alts, 0).value;
            k < |alts| && PrefixMatches(s, m.start, alts[k]) && m == MatchThrough(s, m.start, alts[k])
  {
    var m := Search(s, alts, 0).value;
    k := FirstAlt(s, m.start, alts, 0).value;
  }

  /** The id of a match `re.search` reports is `MinIdLength` or more id characters of the text. */
  lemma SearchFoundId(s: string, alts: seq<string>)
    requires Search(s, alts, 0).Some?
    ensures var m := Search(s, alts, 0).value;
            m.idStart + MinIdLength <= m.end <= |s| &&
            forall i :: m.idStart <= i < m.end ==> IsIdChar(s[i])
  {
    var m := Search(s, alts, 0).value;
    var k := SearchFoundThrough(s, alts);
    MatchThroughId(s, m.start, alts[k]);
  }

  /** When `re.search` fails, the pattern matches nowhere. */
  lemma SearchFoundNothing(s: string, alts: seq<string>)
    requires Search(s, alts, 0).None?
    ensures forall i :: 0 <= i <= |s| ==> !MatchesAt(s, i, alts)
  {
    forall i | 0 <= i <= |s|
      ensures !MatchesAt(s, i, alts)
    {
      assert MatchAt(s, i, alts).None?;
    }
  }

  /**
   * A shorts link is rewritten to the canonical watch URL carrying the whole id run that
   * follows `/shorts/` in the leftmost shorts match, whatever else the text contains.
   */
  lemma CleanRewritesShorts(t: string, j: nat, k: nat)
    requires k < |ShortsPrefixes| && PrefixMatches(t, j, ShortsPrefixes[k])
    requires forall i :: 0 <= i < j ==> !MatchesAt(t, i, ShortsPrefixes)
    ensures var m := MatchThrough(t, j, ShortsPrefixes[k]);
            m.idStart + MinIdLength <= m.end <= |t| &&
            (forall i :: m.idStart <= i < m.end ==> IsIdChar(t[i])) &&
            (m.end == |t| || !IsIdChar(t[m.end])) &&
            CleanStripped(t) == CanonicalWatch + t[m.idStart..m.end]
  {
    MatchThroughId(t, j, ShortsPrefixes[k]);
    ShortsExclusive();
    SearchFindsLeftmost(t, ShortsPrefixes, j, k);
  }

  /**
   * With no shorts link anywhere, the result is exactly the leftmost watch or youtu.be
   * match: a slice of the text that ends where the id run after the prefix ends.
   */
  lemma CleanKeepsWatchMatch(t: string, j: nat, k: nat)
    requires forall i :: 0 <= i <= |t| ==> !MatchesAt(t, i, ShortsPrefixes)
    requires k < |WatchPrefixes| && PrefixMatches(t, j, WatchPrefixes[k])
    requires forall i :: 0 <= i < j ==> !MatchesAt(t, i, WatchPrefixes)
    ensures var m := MatchThrough(t, j, WatchPrefixes[k]);
            m.idStart + MinIdLength <= m.end <= |t| &&
            (m.end == |t| || !IsIdChar(t[m.end])) &&
            CleanStripped(t) == t[j..m.end]
  {
    MatchThroughId(t, j, WatchPrefixes[k]);
    SearchFindsNothing(t, ShortsPrefixes);
    WatchExclusive();
    SearchFindsLeftmost(t, WatchPrefixes, j, k);
  }

  /** Text with no recognised link comes back unchanged. */
  lemma CleanPassesThrough(t: string)
    requires forall i :: 0 <= i <= |t| ==> !MatchesAt(t, i, ShortsPrefixes)
    requires forall i :: 0 <= i <= |t| ==> !MatchesAt(t, i, WatchPrefixes)
    ensures CleanStripped(t) == t
  {
    SearchFindsNothing(t, ShortsPrefixes);
    SearchFindsNothing(t, WatchPrefixes);
  }

  /** The id run of a slice is that of the whole string, cut off at the slice's end. */
  lemma {:induction false} IdRunSlice(s: string, lo: nat, hi: nat, k: nat)
    requires lo + k <= hi <= |s|
    ensures IdRun(s[lo..hi], k) == if IdRun(s, lo + k) <= hi - lo - k then IdRun(s, lo + k) else hi - lo - k
    decreases hi - lo - k
  {
  }

  /** A match inside a slice is a match in the whole string, at the shifted position. */
  lemma PrefixMatchesInSlice(s: string, lo: nat, hi: nat, i: nat, p: string)
    requires lo <= hi <= |s| && PrefixMatches(s[lo..hi], i, p)
    ensures PrefixMatches(s, lo + i, p)
  {
    var u := s[lo..hi];
    assert StartsAt(u, i, p);
    forall x | 0 <= x < |p|
      ensures s[lo + i + x] == p[x]
    {
      assert u[i..i + |p|][x] == u[i + x] == s[lo + i + x];
    }
    assert s[lo + i..lo + i + |p|] == p;
    IdRunSlice(s, lo, hi, i + |p|);
  }

  /** A pattern that matches in a slice matches in the whole string, at the shifted position. */
  lemma MatchInSliceLifts(s: string, lo: nat, hi: nat, i: nat, alts: seq<string>)
    requires lo <= hi <= |s| && MatchesAt(s[lo..hi], i, alts)
    ensures MatchesAt(s, lo + i, alts)
  {
    var k :| 0 <= k < |alts| && PrefixMatches(s[lo..hi], i, alts[k]);
    PrefixMatchesInSlice(s, lo, hi, i, alts[k]);
  }

  /** A pattern that matches nowhere in `s` matches nowhere in any slice of `s`. */
  lemma NoMatchInSlice(s: string, lo: nat, hi: nat, alts: seq<string>)
    requires lo <= hi <= |s|
    requires forall i :: 0 <= i <= |s| ==> !MatchesAt(s, i, alts)
    ensures forall i :: 0 <= i <= hi - lo ==> !MatchesAt(s[lo..hi], i, alts)
  {
    forall i | 0 <= i <= hi - lo
      ensures !MatchesAt(s[lo..hi], i, alts)
    {
      if MatchesAt(s[lo..hi], i, alts) {
        MatchInSliceLifts(s, lo, hi, i, alts);
      }
    }
  }

  /** A run of id characters up to the end of the string is taken whole. */
  lemma {:induction false} IdRunToEnd(s: string, k: nat)
    requires k <= |s| && forall i :: k <= i < |s| ==> IsIdChar(s[i])
    ensures IdRun(s, k) == |s| - k
    decreases |s| - k
  {
  }

  /** The canonical watch prefix has no `/` from position 25 on. */
  lemma CanonicalTailHasNoSlash(x: nat)
    requires 25 <= x < |CanonicalWatch|
    ensures CanonicalWatch[x] != '/'
  {
  }

  /** A shorts prefix ends in `/` at position 25 or later of wherever it occurs. */
  lemma NoSlashNoShorts(s: string, i: nat, k: nat)
    requires forall x :: 25 <= x < |s| ==> s[x] != '/'
    requires k < |ShortsPrefixes|
    ensures !StartsAt(s, i, ShortsPrefixes[k])
  {
    ShortsPrefixChars(k);
  }

  /**
   * The canonical watch URL of an id contains no shorts link: the `/` that ends a shorts
   * prefix could only fall in the id or in `atch?v=`, and neither holds a `/`.
   */
  lemma CanonicalHasNoShorts(id: string)
    requires forall i :: 0 <= i < |id| ==> IsIdChar(id[i])
    ensures var c := CanonicalWatch + id;
            forall i :: 0 <= i <= |c| ==> !MatchesAt(c, i, ShortsPrefixes)
  {
    var c := CanonicalWatch + id;
    forall x | 25 <= x < |c|
      ensures c[x] != '/'
    {
      if x < |CanonicalWatch| {
        CanonicalTailHasNoSlash(x);
      } else {
        assert c[x] == id[x - |CanonicalWatch|];
      }
    }
    forall i, k | 0 <= i <= |c| && 0 <= k < |ShortsPrefixes|
      ensures !PrefixMatches(c, i, ShortsPrefixes[k])
    {
      NoSlashNoShorts(c, i, k);
    }
  }

  /** A text without whitespace at its ends that `CleanStripped` keeps is kept by `Clean`. */
  lemma CleanFixedPoint(c: string)
    requires c != [] && c[0] == 'h' && IsIdChar(c[|c| - 1])
    requires CleanStripped(c) == c
    ensures Clean(c) == c
  {
    assert !IsSpace(c[|c| - 1]);
    StripUnchanged(c);
  }

  /** The canonical watch URL of an id starts with `h` and ends with an id character. */
  lemma CanonicalEnds(id: string)
    requires |id| >= MinIdLength && forall i :: 0 <= i < |id| ==> IsIdChar(id[i])
    ensures var c := CanonicalWatch + id;
            c != [] && c[0] == 'h' && IsIdChar(c[|c| - 1])
  {
  }

  /** The canonical watch URL of an id is matched whole by the watch pattern. */
  lemma CanonicalMatchesItself(id: string)
    requires |id| >= MinIdLength && forall i :: 0 <= i < |id| ==> IsIdChar(id[i])
    ensures CleanStripped(CanonicalWatch + id) == CanonicalWatch + id
  {
    var c := CanonicalWatch + id;
    CanonicalHasNoShorts(id);
    assert c[..|CanonicalWatch|] == CanonicalWatch;
    IdRunToEnd(c, |CanonicalWatch|);
    assert WatchPrefixes[0] == CanonicalWatch;
    assert PrefixMatches(c, 0, WatchPrefixes[0]);
    CleanKeepsWatchMatch(c, 0, 0);
    assert c[0..|c|] == c;
  }

  /** The canonical watch URL of an id is cleaned to itself. */
  lemma CleanKeepsCanonical(id: string)
    requires |id| >= MinIdLength && forall i :: 0 <= i < |id| ==> IsIdChar(id[i])
    ensures Clean(CanonicalWatch + id) == CanonicalWatch + id
  {
    var c := CanonicalWatch + id;
    CanonicalMatchesItself(id);
    CanonicalEnds(id);
    CleanFixedPoint(c);
  }

  /** A watch match starts with `h` and ends with an id character. */
  lemma WatchSliceEnds(t: string, j: nat, k: nat)
    requires k < |WatchPrefixes| && PrefixMatches(t, j, WatchPrefixes[k])
    ensures var c := t[j..MatchThrough(t, j, WatchPrefixes[k]).end];
            c != [] && c[0] == 'h' && IsIdChar(c[|c| - 1])
  {
    var p := WatchPrefixes[k];
    var m := MatchThrough(t, j, p);
    MatchThroughId(t, j, p);
    WatchPrefixStart(k);
    assert t[j] == t[j..j + |p|][0] == p[0];
  }

  /** A leftmost watch match, cut out of text with no shorts link, is matched whole again. */
  lemma WatchSliceMatchesItself(t: string, j: nat, k: nat)
    requires forall i :: 0 <= i <= |t| ==> !MatchesAt(t, i, ShortsPrefixes)
    requires k < |WatchPrefixes| && PrefixMatches(t, j, WatchPrefixes[k])
    ensures var c := t[j..MatchThrough(t, j, WatchPrefixes[k]).end];
            CleanStripped(c) == c
  {
    var p := WatchPrefixes[k];
    var m := MatchThrough(t, j, p);
    MatchThroughId(t, j, p);
    var c := t[j..m.end];
    NoMatchInSlice(t, j, m.end, ShortsPrefixes);
    assert c[0..|p|] == t[j..j + |p|] == p;
    IdRunSlice(t, j, m.end, |p|);
    assert PrefixMatches(c, 0, p);
    CleanKeepsWatchMatch(c, 0, k);
    assert c[0..|c|] == c;
  }

  /** A leftmost watch match, cut out of text with no shorts link, is cleaned to itself. */
  lemma CleanKeepsWatchSlice(t: string, j: nat, k: nat)
    requires forall i :: 0 <= i <= |t| ==> !MatchesAt(t, i, ShortsPrefixes)
    requires k < |WatchPrefixes| && PrefixMatches(t, j, WatchPrefixes[k])
    ensures var c := t[j..MatchThrough(t, j, WatchPrefixes[k]).end];
            Clean(c) == c
  {
    WatchSliceMatchesItself(t, j, k);
    WatchSliceEnds(t, j, k);
    CleanFixedPoint(t[j..MatchThrough(t, j, WatchPrefixes[k]).end]);
  }

  /** Where a shorts link is found, the text cleans to the canonical watch URL of its id. */
  lemma CleanStrippedShorts(t: string) returns (id: string)
    requires Search(t, ShortsPrefixes, 0).Some?
    ensures CleanStripped(t) == CanonicalWatch + id
    ensures |id| >= MinIdLength && forall i :: 0 <= i < |id| ==> IsIdChar(id[i])
  {
    var m := Search(t, ShortsPrefixes, 0).value;
    SearchFoundId(t, ShortsPrefixes);
    ShortsRewritten(t);
    IdCharsInSlice(t, m.idStart, m.end);
    id := t[m.idStart..m.end];
  }

  /** When a shorts link is found, the canonical prefix is put before its id. */
  lemma ShortsRewritten(t: string)
    requires Search(t, ShortsPrefixes, 0).Some?
    ensures var m := Search(t, ShortsPrefixes, 0).value;
            m.idStart <= m.end <= |t| && CleanStripped(t) == CanonicalWatch + t[m.idStart..m.end]
  {
    SearchFoundId(t, ShortsPrefixes);
  }

  /** A slice of id characters consists of id characters. */
  lemma IdCharsInSlice(t: string, lo: nat, hi: nat)
    requires lo <= hi <= |t| && forall i :: lo <= i < hi ==> IsIdChar(t[i])
    ensures forall i :: 0 <= i < hi - lo ==> IsIdChar(t[lo..hi][i])
  {
    forall i | 0 <= i < hi - lo
      ensures IsIdChar(t[lo..hi][i])
    {
      assert t[lo..hi][i] == t[lo + i];
    }
  }

  /** A stripped text in which a shorts link is found cleans to a URL that cleans to itself. */
  lemma CleanIdempotentShorts(t: string)
    requires Search(t, ShortsPrefixes, 0).Some?
    ensures Clean(CleanStripped(t)) == CleanStripped(t)
  {
    var id := CleanStrippedShorts(t);
    CleanKeepsCanonical(id);
  }

  /** A stripped text with only a watch link cleans to a URL that cleans to itself. */
  lemma CleanIdempotentWatch(t: string)
    requires Search(t, ShortsPrefixes, 0).None? && Search(t, WatchPrefixes, 0).Some?
    ensures Clean(CleanStripped(t)) == CleanStripped(t)
  {
    var m := Search(t, WatchPrefixes, 0).value;
    var k := SearchFoundThrough(t, WatchPrefixes);
    assert CleanStripped(t) == t[m.start..m.end];
    SearchFoundNothing(t, ShortsPrefixes);
    CleanKeepsWatchSlice(t, m.start, k);
  }

  /** `clean_youtube_url` is idempotent: cleaning a cleaned URL changes nothing. */
  lemma CleanIdempotent(url: string)
    ensures Clean(Clean(url)) == Clean(url)
  {
    var t := Strip(url);
    if Search(t, ShortsPrefixes, 0).Some? {
      CleanIdempotentShorts(t);
    } else if Search(t, WatchPrefixes, 0).Some? {
      CleanIdempotentWatch(t);
    } else {
      assert CleanStripped(t) == t;
      StripIdempotent(url);
    }
  }
}

/**
 * The search-fragment cleaner of `RenameEngine.clean_filename_for_search` (main.py:80-87): a fixed
 * chain of rewrites that turns a file name into the text that is fuzzy-compared with episode titles.
 * Each regular-expression step is written as an explicit left-to-right scanner.
 */
module SearchCleaner {
  import opened Text
  import Paths

  // ---------------------------------------------------------------------------------------------
  // The languages of the three patterns that are deleted from the name

  /** A non-empty run of decimal digits (`\d+`). */
  predicate IsDigits(w: string) {
    |w| > 0 && forall i :: 0 <= i < |w| ==> IsDigit(w[i])
  }

  /** `\s?\d+` */
  predicate IsSpaceDigits(t: string) {
    IsDigits(t) || (|t| > 0 && IsSpace(t[0]) && IsDigits(t[1..]))
  }

  /** `[Ee]p\.?\s?\d+`: an episode marker such as `Ep.3`, `ep 12` or `Ep7`. */
  predicate IsEpisodeMarker(w: string) {
    |w| >= 3 && (w[0] == 'E' || w[0] == 'e') && w[1] == 'p' &&
    (IsSpaceDigits(w[2..]) || (w[2] == '.' && IsSpaceDigits(w[3..])))
  }

  /** `[Ss]\d+[Ee]\d+` split at the position `k` of the `E`. */
  predicate IsSeasonEpisodeAt(w: string, k: int) {
    1 < k < |w| && IsDigits(w[1..k]) && (w[k] == 'E' || w[k] == 'e') && IsDigits(w[k + 1..])
  }

  /** `[Ss]\d+[Ee]\d+`: a season/episode marker such as `S02E05`. */
  ghost predicate IsSeasonEpisodeMarker(w: string) {
    |w| >= 4 && (w[0] == 'S' || w[0] == 's') && exists k :: IsSeasonEpisodeAt(w, k)
  }

  /** The three patterns that the cleaner deletes, in the order it deletes them. */
  datatype Pattern =
    | ShowName(name: string)   // `re.escape(show_name)` with `re.IGNORECASE`
    | EpisodeMarker            // `[Ee]p\.?\s?\d+`
    | SeasonEpisodeMarker      // `[Ss]\d+[Ee]\d+`

  /** The strings a pattern matches. An empty show name only matches the empty string. */
  ghost predicate Matches(p: Pattern, w: string) {
    match p
    case ShowName(name) => |name| > 0 && EqualIgnoringCase(w, name)
    case EpisodeMarker => IsEpisodeMarker(w)
    case SeasonEpisodeMarker => IsSeasonEpisodeMarker(w)
  }

  // ---------------------------------------------------------------------------------------------
  // Matching at the start of the text

  /** The length of the run of digits that `s` starts with. */
  function DigitRun(s: string): (r: nat)
    ensures r <= |s|
    ensures forall i :: 0 <= i < r ==> IsDigit(s[i])
    ensures r < |s| ==> !IsDigit(s[r])
  {
    if |s| > 0 && IsDigit(s[0]) then 1 + DigitRun(s[1..]) else 0
  }

  /** The digit strings that a digit run of length `d` starts are exactly its first `d` prefixes. */
  lemma DigitPrefixes(s: string, m: int)
    requires 0 <= m <= |s|
    ensures IsDigits(s[..m]) <==> 1 <= m <= DigitRun(s)
  {
    if IsDigits(s[..m]) && m > DigitRun(s) {
      assert s[..m][DigitRun(s)] == s[DigitRun(s)];
    }
  }

  /** `\s?\d+` at the start of `t`: the length of the greedy match, 0 when there is none. */
  function SpaceDigitsLength(t: string): (r: nat)
    ensures r <= |t|
  {
    var j := if |t| > 0 && IsSpace(t[0]) then 1 else 0;
    var d := DigitRun(t[j..]);
    if d > 0 then j + d else 0
  }

  lemma SpaceDigitsLongest(t: string)
    ensures SpaceDigitsLength(t) > 0 ==> IsSpaceDigits(t[..SpaceDigitsLength(t)])
    ensures forall m :: SpaceDigitsLength(t) < m <= |t| ==> !IsSpaceDigits(t[..m])
  {
    var j := if |t| > 0 && IsSpace(t[0]) then 1 else 0;
    SpaceDigitsPrefixes(t, j, DigitRun(t[j..]));
  }

  lemma SpaceDigitsPrefixes(t: string, j: nat, d: nat)
    requires j == (if |t| > 0 && IsSpace(t[0]) then 1 else 0)
    requires d == DigitRun(t[j..])
    ensures d > 0 ==> IsSpaceDigits(t[..j + d])
    ensures forall m :: (if d > 0 then j + d else 0) < m <= |t| ==> !IsSpaceDigits(t[..m])
  {
    if d > 0 {
      DigitPrefixes(t[j..], d);
      assert t[j..][..d] == t[..j + d][j..];
      if j == 0 {
        assert t[..j + d] == t[j..][..d];
      }
    }
    forall m | (if d > 0 then j + d else 0) < m <= |t|
      ensures !IsSpaceDigits(t[..m])
    {
      if j == 1 {
        assert !IsDigit(t[0]);
        assert t[..m][0] == t[0];
        assert t[..m][1..] == t[j..][..m - 1];
        DigitPrefixes(t[j..], m - 1);
      } else {
        assert t[..m] == t[j..][..m];
        DigitPrefixes(t[j..], m);
        if |t| > 0 && m >= 1 {
          assert t[..m][0] == t[0];
        }
      }
    }
  }

  /** `[Ee]p\.?\s?\d+` at the start of `s`: the length of the greedy match, 0 when there is none. */
  function EpisodeMarkerLength(s: string): (r: nat)
    ensures r <= |s|
  {
    if |s| >= 2 && (s[0] == 'E' || s[0] == 'e') && s[1] == 'p' then
      var i := if |s| > 2 && s[2] == '.' then 3 else 2;
      var n := SpaceDigitsLength(s[i..]);
      if n > 0 then i + n else 0
    else
      0
  }

  lemma EpisodeMarkerLongest(s: string)
    ensures EpisodeMarkerLength(s) > 0 ==> IsEpisodeMarker(s[..EpisodeMarkerLength(s)])
    ensures forall m :: EpisodeMarkerLength(s) < m <= |s| ==> !IsEpisodeMarker(s[..m])
  {
    if |s| >= 2 && (s[0] == 'E' || s[0] == 'e') && s[1] == 'p' {
      var i := if |s| > 2 && s[2] == '.' then 3 else 2;
      SpaceDigitsLongest(s[i..]);
      EpisodeMarkerPrefixes(s, i, SpaceDigitsLength(s[i..]));
    }
  }

  lemma EpisodeMarkerPrefixes(s: string, i: nat, n: nat)
    requires |s| >= 2 && (s[0] == 'E' || s[0] == 'e') && s[1] == 'p'
    requires i == (if |s| > 2 && s[2] == '.' then 3 else 2)
    requires n == SpaceDigitsLength(s[i..])
    requires n > 0 ==> IsSpaceDigits(s[i..][..n])
    requires forall m :: n < m <= |s[i..]| ==> !IsSpaceDigits(s[i..][..m])
    ensures n > 0 ==> IsEpisodeMarker(s[..i + n])
    ensures forall m :: (if n > 0 then i + n else 0) < m <= |s| ==> !IsEpisodeMarker(s[..m])
  {
    if n > 0 {
      SliceOfPrefix(s, i, i + n);
    }
    forall m | (if n > 0 then i + n else 0) < m <= |s|
      ensures !IsEpisodeMarker(s[..m])
    {
      if m >= 3 {
        var w := s[..m];
        SliceOfPrefix(s, i, m);
        assert w[2] == s[2];
        if i == 3 {
          assert !IsSpace(w[2]) && !IsDigit(w[2]);
        }
      }
    }
  }

  /** A slice of a prefix is a prefix of a slice. */
  lemma SliceOfPrefix(s: string, i: nat, m: nat)
    requires i <= m <= |s|
    ensures s[..m][i..] == s[i..][..m - i]
  {
  }

  /** `[Ss]\d+[Ee]\d+` at the start of `s`: the length of the greedy match, 0 when there is none. */
  function SeasonEpisodeMarkerLength(s: string): (r: nat)
    ensures r <= |s|
  {
    if |s| >= 1 && (s[0] == 'S' || s[0] == 's') then
      var d1 := DigitRun(s[1..]);
      if d1 > 0 && 1 + d1 < |s| && (s[1 + d1] == 'E' || s[1 + d1] == 'e') then
        var d2 := DigitRun(s[2 + d1..]);
        if d2 > 0 then 2 + d1 + d2 else 0
      else
        0
    else
      0
  }

  lemma SeasonEpisodeMarkerLongest(s: string)
    ensures SeasonEpisodeMarkerLength(s) > 0 ==> IsSeasonEpisodeMarker(s[..SeasonEpisodeMarkerLength(s)])
    ensures forall m :: SeasonEpisodeMarkerLength(s) < m <= |s| ==> !IsSeasonEpisodeMarker(s[..m])
  {
    if |s| >= 1 && (s[0] == 'S' || s[0] == 's') {
      var d1 := DigitRun(s[1..]);
      if d1 > 0 && 1 + d1 < |s| && (s[1 + d1] == 'E' || s[1 + d1] == 'e') {
        SeasonEpisodePrefixes(s, d1, DigitRun(s[2 + d1..]));
      } else {
        SeasonEpisodeNone(s, d1);
      }
    }
  }

  /** Where the `E` of a season/episode marker must sit: right after the first digit run. */
  lemma SeasonEpisodeSplit(s: string, m: int, k: int)
    requires 0 <= m <= |s| && IsSeasonEpisodeAt(s[..m], k)
    ensures k == 1 + DigitRun(s[1..]) && k > 1 && (s[k] == 'E' || s[k] == 'e')
    ensures 1 <= m - k - 1 <= DigitRun(s[k + 1..])
  {
    var w := s[..m];
    assert w[1..k] == s[1..][..k - 1];
    DigitPrefixes(s[1..], k - 1);
    SliceOfPrefix(s, k + 1, m);
    DigitPrefixes(s[k + 1..], m - k - 1);
    assert w[k] == s[k];
  }

  lemma SeasonEpisodeNone(s: string, d1: nat)
    requires |s| >= 1 && d1 == DigitRun(s[1..])
    requires !(d1 > 0 && 1 + d1 < |s| && (s[1 + d1] == 'E' || s[1 + d1] == 'e'))
    ensures forall m :: 0 < m <= |s| ==> !IsSeasonEpisodeMarker(s[..m])
  {
    forall m, k | 0 < m <= |s| && IsSeasonEpisodeAt(s[..m], k)
      ensures false
    {
      SeasonEpisodeSplit(s, m, k);
    }
  }

  lemma SeasonEpisodePrefixes(s: string, d1: nat, d2: nat)
    requires |s| >= 1 && (s[0] == 'S' || s[0] == 's')
    requires d1 == DigitRun(s[1..]) && d1 > 0 && 1 + d1 < |s| && (s[1 + d1] == 'E' || s[1 + d1] == 'e')
    requires d2 == DigitRun(s[2 + d1..])
    ensures d2 > 0 ==> IsSeasonEpisodeMarker(s[..2 + d1 + d2])
    ensures forall m :: (if d2 > 0 then 2 + d1 + d2 else 0) < m <= |s| ==> !IsSeasonEpisodeMarker(s[..m])
  {
    var k := 1 + d1;
    if d2 > 0 {
      var w := s[..2 + d1 + d2];
      assert w[1..k] == s[1..][..d1];
      DigitPrefixes(s[1..], d1);
      assert w[k + 1..] == s[2 + d1..][..d2];
      DigitPrefixes(s[2 + d1..], d2);
      assert IsSeasonEpisodeAt(w, k);
    }
    forall m, k' | (if d2 > 0 then 2 + d1 + d2 else 0) < m <= |s| && IsSeasonEpisodeAt(s[..m], k')
      ensures false
    {
      SeasonEpisodeSplit(s, m, k');
    }
  }

  /** The show name at the start of `s`, compared without regard to case. */
  function ShowNameLength(name: string, s: string): (r: nat)
    ensures r <= |s|
  {
    if |name| > 0 && |name| <= |s| && EqualIgnoringCase(s[..|name|], name) then |name| else 0
  }

  /** The length of the match of `p` at the start of `s` (0: no match). */
  function MatchLength(p: Pattern, s: string): (r: nat)
    ensures r <= |s|
  {
    match p
    case ShowName(name) => ShowNameLength(name, s)
    case EpisodeMarker => EpisodeMarkerLength(s)
    case SeasonEpisodeMarker => SeasonEpisodeMarkerLength(s)
  }

  /**
   * Where the regular expression engine backtracks, every alternative it could fall back to fails
   * on the same characters, so its match is the longest prefix of `s` in the pattern's language.
   */
  lemma MatchIsLongest(p: Pattern, s: string)
    ensures MatchLength(p, s) > 0 ==> Matches(p, s[..MatchLength(p, s)])
    ensures forall m :: MatchLength(p, s) < m <= |s| ==> !Matches(p, s[..m])
  {
    match p
    case ShowName(_) =>
    case EpisodeMarker => EpisodeMarkerLongest(s);
    case SeasonEpisodeMarker => SeasonEpisodeMarkerLongest(s);
  }

  // ---------------------------------------------------------------------------------------------
  // Deleting every match, left to right (`re.sub(pattern, '', s)`)

  /**
   * `re.sub(pattern, '', s)` for a pattern whose match at the start of a text is `matchAt(text)`
   * characters long (0: no match): scan left to right, drop each match, resume right after it.
   */
  function DeleteMatches(matchAt: string -> nat, s: string): (r: string)
    ensures |r| <= |s|
    decreases |s|
  {
    if |s| == 0 then []
    else
      var n := matchAt(s);
      if 0 < n <= |s| then DeleteMatches(matchAt, s[n..]) else [s[0]] + DeleteMatches(matchAt, s[1..])
  }

  /** Where the pattern matches nowhere, nothing is deleted. */
  lemma {:induction false} DeleteNothing(matchAt: string -> nat, s: string)
    requires forall k :: 0 <= k < |s| ==> matchAt(s[k..]) == 0
    ensures DeleteMatches(matchAt, s) == s
  {
    if |s| > 0 {
      assert s[0..] == s;
      forall k | 0 <= k < |s[1..]| ensures matchAt(s[1..][k..]) == 0 {
        assert s[1..][k..] == s[k + 1..];
      }
      DeleteNothing(matchAt, s[1..]);
    }
  }

  /**
   * Leftmost-first: when the first match starts at position `k`, everything before it is kept,
   * the match is dropped and the scan resumes right after it.
   */
  lemma {:induction false} DeleteLeftmost(matchAt: string -> nat, s: string, k: nat)
    requires k < |s| && 0 < matchAt(s[k..]) <= |s| - k
    requires forall j :: 0 <= j < k ==> matchAt(s[j..]) == 0
    ensures DeleteMatches(matchAt, s) == s[..k] + DeleteMatches(matchAt, s[k + matchAt(s[k..])..])
  {
    var n := matchAt(s[k..]);
    KeepsPrefix(matchAt, s, k);
    assert s[k..][n..] == s[k + n..];
  }

  /** Characters where no match starts are kept, one after the other. */
  lemma {:induction false} KeepsPrefix(matchAt: string -> nat, s: string, i: nat)
    requires i <= |s|
    requires forall j :: 0 <= j < i ==> matchAt(s[j..]) == 0
    ensures DeleteMatches(matchAt, s) == s[..i] + DeleteMatches(matchAt, s[i..])
    decreases i
  {
    if i == 0 {
      assert s[..0] == [] && s[0..] == s;
    } else {
      var u := s[i - 1..];
      KeepsPrefix(matchAt, s, i - 1);
      assert DeleteMatches(matchAt, u) == [s[i - 1]] + DeleteMatches(matchAt, s[i..]) by {
        assert u[0..] == u && u[1..] == s[i..];
        DeleteKeeps(matchAt, u);
      }
      assert s[..i] == s[..i - 1] + [s[i - 1]];
      assert s[..i - 1] + ([s[i - 1]] + DeleteMatches(matchAt, s[i..]))
          == (s[..i - 1] + [s[i - 1]]) + DeleteMatches(matchAt, s[i..]);
    }
  }

  /** A first character that starts no match is kept. */
  lemma DeleteKeeps(matchAt: string -> nat, s: string)
    requires |s| > 0 && matchAt(s[0..]) == 0
    ensures DeleteMatches(matchAt, s) == [s[0]] + DeleteMatches(matchAt, s[1..])
  {
    assert s[0..] == s;
  }

  /** The deletion step of the cleaner for one of its three patterns. */
  function DeleteAll(p: Pattern, s: string): (r: string)
    ensures |r| <= |s|
  {
    DeleteMatches(t => MatchLength(p, t), s)
  }

  // ---------------------------------------------------------------------------------------------
  // The trailing video id (`[-_][a-zA-Z0-9_-]{11}$`)

  predicate IsIdChar(c: char) {
    IsAlnum(c) || c == '_' || c == '-'
  }

  /** A dash or underscore followed by exactly eleven id characters. */
  predicate IsIdSuffix(w: string) {
    |w| == 12 && (w[0] == '-' || w[0] == '_') && forall i :: 1 <= i < 12 ==> IsIdChar(w[i])
  }

  /**
   * The length of the id match that starts `t`: twelve characters of id, then the end of the
   * string, which Python's `$` also finds just before one final newline.
   */
  function IdMatchAt(t: string): (r: nat)
    ensures r == 0 || r == 12
  {
    if |t| >= 12 && IsIdSuffix(t[..12]) && (|t| == 12 || (|t| == 13 && t[12] == '\n')) then 12 else 0
  }

  /** The id before one final newline. */
  predicate IdBeforeNewline(s: string) {
    |s| >= 13 && s[|s| - 1] == '\n' && IsIdSuffix(s[|s| - 13..|s| - 1])
  }

  /**
   * `re.sub(r'[-_][a-zA-Z0-9_-]{11}$', '', s)`: the pattern has a fixed width and is anchored at the
   * end, so at most one match exists: the last twelve characters, or the twelve before a final
   * newline, which stays.
   */
  function StripVideoId(s: string): (r: string)
    ensures |s| >= 12 && IsIdSuffix(s[|s| - 12..]) ==> r == s[..|s| - 12]
    ensures IdBeforeNewline(s) ==> r == s[..|s| - 13] + "\n"
    ensures !(|s| >= 12 && IsIdSuffix(s[|s| - 12..])) && !IdBeforeNewline(s) ==> r == s
  {
    if |s| >= 12 && IsIdSuffix(s[|s| - 12..]) then s[..|s| - 12]
    else if IdBeforeNewline(s) then s[..|s| - 13] + "\n"
    else s
  }

  /** Stripping the id is the leftmost, non-overlapping substitution of the id pattern. */
  lemma StripVideoIdIsSubstitution(s: string)
    ensures StripVideoId(s) == DeleteMatches(IdMatchAt, s)
  {
    if |s| >= 12 && IsIdSuffix(s[|s| - 12..]) {
      IdAtEndDeleted(s);
    } else if IdBeforeNewline(s) {
      IdBeforeNewlineDeleted(s);
    } else {
      forall j | 0 <= j < |s| ensures IdMatchAt(s[j..]) == 0 {
        if |s[j..]| == 12 {
          assert s[j..][..12] == s[|s| - 12..];
        } else if |s[j..]| == 13 {
          assert s[j..][..12] == s[|s| - 13..|s| - 1];
        }
      }
      DeleteNothing(IdMatchAt, s);
    }
  }

  /** No match starts more than thirteen characters before the end. */
  lemma IdMatchFar(s: string, k: nat)
    requires k + 13 <= |s|
    ensures forall j :: 0 <= j < k ==> IdMatchAt(s[j..]) == 0
  {
  }

  /** An id at the very end leaves no room for a match that starts earlier. */
  lemma IdAtEndOnly(s: string)
    requires |s| >= 12 && IsIdSuffix(s[|s| - 12..])
    ensures forall j :: 0 <= j < |s| - 12 ==> IdMatchAt(s[j..]) == 0
  {
    var k := |s| - 12;
    if k > 0 {
      IdMatchFar(s, k - 1);
      var t := s[k - 1..];
      assert t[12] == s[k..][11];
      assert IsIdChar(s[k..][11]);
      assert IdMatchAt(t) == 0;
    }
  }

  lemma IdAtEndDeleted(s: string)
    requires |s| >= 12 && IsIdSuffix(s[|s| - 12..])
    ensures DeleteMatches(IdMatchAt, s) == s[..|s| - 12]
  {
    var k := |s| - 12;
    assert s[k..][..12] == s[k..];
    IdAtEndOnly(s);
    DeleteLeftmost(IdMatchAt, s, k);
    assert s[k + 12..] == [];
  }

  lemma IdBeforeNewlineDeleted(s: string)
    requires IdBeforeNewline(s)
    ensures DeleteMatches(IdMatchAt, s) == s[..|s| - 13] + "\n"
  {
    var k := |s| - 13;
    assert s[k..][..12] == s[|s| - 13..|s| - 1];
    IdMatchFar(s, k);
    DeleteLeftmost(IdMatchAt, s, k);
    var nl := s[k + 12..];
    assert nl == ['\n'];
    assert DeleteMatches(IdMatchAt, nl) == nl by {
      DeleteNothing(IdMatchAt, nl);
    }
  }

  // ---------------------------------------------------------------------------------------------
  // Punctuation to spaces and whitespace normalisation (main.py:86-87)

  /** `re.sub(r'[^a-zA-Z0-9\s]', ' ', s)` */
  function Depunctuate(s: string): (r: string)
    ensures |r| == |s|
    ensures forall i :: 0 <= i < |s| ==> IsAlnum(r[i]) || IsSpace(r[i])
    ensures forall i :: 0 <= i < |s| && (IsAlnum(s[i]) || IsSpace(s[i])) ==> r[i] == s[i]
    ensures forall i :: 0 <= i < |s| && !(IsAlnum(s[i]) || IsSpace(s[i])) ==> r[i] == ' '
  {
    seq(|s|, i requires 0 <= i < |s| => if IsAlnum(s[i]) || IsSpace(s[i]) then s[i] else ' ')
  }

  /** The length of the word `s` starts with: everything up to the first whitespace. */
  function WordLength(s: string): (r: nat)
    requires |s| > 0 && !IsSpace(s[0])
    ensures 1 <= r <= |s|
    ensures forall i :: 0 <= i < r ==> !IsSpace(s[i])
    ensures r < |s| ==> IsSpace(s[r])
  {
    if |s| == 1 || IsSpace(s[1]) then 1 else 1 + WordLength(s[1..])
  }

  /** `s.split()`: the maximal runs of non-whitespace characters, in order. */
  function Words(s: string): (r: seq<string>)
    decreases |s|
  {
    if |s| == 0 then []
    else if IsSpace(s[0]) then Words(s[1..])
    else
      var k := WordLength(s);
      [s[..k]] + Words(s[k..])
  }

  /** `" ".join(ws)` */
  function JoinWords(ws: seq<string>): (r: string)
    ensures |ws| == 0 ==> r == ""
    ensures |ws| > 0 ==> |r| >= |ws[0]| && r[..|ws[0]|] == ws[0]
  {
    if |ws| == 0 then ""
    else if |ws| == 1 then ws[0]
    else ws[0] + " " + JoinWords(ws[1..])
  }

  function StripLeading(s: string): (r: string)
    ensures |r| <= |s| && s[|s| - |r|..] == r
    ensures |r| > 0 ==> !IsSpace(r[0])
    ensures forall i :: 0 <= i < |s| - |r| ==> IsSpace(s[i])
  {
    if |s| > 0 && IsSpace(s[0]) then StripLeading(s[1..]) else s
  }

  function StripTrailing(s: string): (r: string)
    ensures |r| <= |s| && s[..|r|] == r
    ensures |r| > 0 ==> !IsSpace(r[|r| - 1])
    ensures forall i :: |r| <= i < |s| ==> IsSpace(s[i])
  {
    if |s| > 0 && IsSpace(s[|s| - 1]) then StripTrailing(s[..|s| - 1]) else s
  }

  /** `s.strip()` */
  function Strip(s: string): string {
    StripTrailing(StripLeading(s))
  }

  /** main.py:86-87: punctuation to spaces, then collapse whitespace runs and trim. */
  function Normalize(s: string): string {
    Strip(JoinWords(Words(Depunctuate(s))))
  }

  /** The shape the cleaner promises: ASCII letters, digits and single inner spaces only. */
  predicate IsCleanFragment(r: string) {
    && (forall i :: 0 <= i < |r| ==> IsAlnum(r[i]) || r[i] == ' ')
    && (|r| > 0 ==> r[0] != ' ' && r[|r| - 1] != ' ')
    && (forall i :: 0 <= i < |r| - 1 ==> r[i] == ' ' ==> r[i + 1] != ' ')
  }

  /** A list of words that `" ".join` followed by `split()` gives back unchanged. */
  predicate ProperWords(ws: seq<string>, alnum: bool) {
    forall w :: w in ws ==> |w| > 0 && forall i :: 0 <= i < |w| ==> !IsSpace(w[i]) && (alnum ==> IsAlnum(w[i]))
  }

  // ---------------------------------------------------------------------------------------------
  // The whole cleaner

  /** `clean_filename_for_search(filename, show_name)`, step by step as main.py:81-87 does it. */
  function CleanForSearch(filename: string, showName: string): (r: string)
    ensures IsCleanFragment(r)
  {
    var name := Paths.SplitExt(filename).0;
    var name := DeleteAll(ShowName(showName), name);
    var name := StripVideoId(name);
    var name := DeleteAll(EpisodeMarker, name);
    var name := DeleteAll(SeasonEpisodeMarker, name);
    NormalizeShape(name);
    Normalize(name)
  }

  // ---------------------------------------------------------------------------------------------
  // Properties of the normalisation

  /** Every word that `split()` yields is non-empty, free of whitespace and made of input characters. */
  lemma {:induction false} WordsAreProper(s: string)
    ensures forall w :: w in Words(s) ==> |w| > 0 && forall i :: 0 <= i < |w| ==> !IsSpace(w[i]) && w[i] in s
    decreases |s|
  {
    if |s| > 0 {
      if IsSpace(s[0]) {
        WordsAreProper(s[1..]);
        forall w, i | w in Words(s[1..]) && 0 <= i < |w| ensures w[i] in s { assert w[i] in s[1..]; }
      } else {
        var k := WordLength(s);
        WordsAreProper(s[k..]);
        forall w, i | w in Words(s) && 0 <= i < |w| ensures w[i] in s {
          if w == s[..k] { assert w[i] == s[i]; } else { assert w in Words(s[k..]); assert w[i] in s[k..]; }
        }
      }
    }
  }

  /** Joining proper words with single spaces gives a clean fragment. */
  lemma {:induction false} JoinIsClean(ws: seq<string>)
    requires ProperWords(ws, true)
    ensures IsCleanFragment(JoinWords(ws))
  {
    if |ws| > 1 {
      JoinIsClean(ws[1..]);
      var rest := JoinWords(ws[1..]);
      var r := ws[0] + " " + rest;
      assert r == JoinWords(ws);
      assert |rest| > 0 by { assert ws[1] in ws; }
      forall i | 0 <= i < |r| ensures IsAlnum(r[i]) || r[i] == ' ' {
        if i < |ws[0]| { assert r[i] == ws[0][i]; } else if i > |ws[0]| { assert r[i] == rest[i - |ws[0]| - 1]; }
      }
      forall i | 0 <= i < |r| - 1 && r[i] == ' ' ensures r[i + 1] != ' ' {
        if i == |ws[0]| {
          assert r[i + 1] == rest[0];
        } else if i > |ws[0]| {
          assert r[i] == rest[i - |ws[0]| - 1] && r[i + 1] == rest[i - |ws[0]|];
        }
      }
      assert ws[0] in ws;
      assert r[0] == ws[0][0];
      assert r[|r| - 1] == rest[|rest| - 1];
    } else if |ws| == 1 {
      assert ws[0] in ws;
    }
  }

  /** `strip()` has nothing to remove from a clean fragment. */
  lemma StripClean(r: string)
    requires IsCleanFragment(r)
    ensures Strip(r) == r
  {
    if |r| > 0 {
      assert !IsSpace(r[0]) && !IsSpace(r[|r| - 1]);
    }
  }

  /** After punctuation became spaces, every word is made of ASCII letters and digits. */
  lemma DepunctuatedWords(s: string)
    ensures ProperWords(Words(Depunctuate(s)), true)
  {
    var d := Depunctuate(s);
    WordsAreProper(d);
    forall w, i | w in Words(d) && 0 <= i < |w| ensures IsAlnum(w[i]) {
      var j :| 0 <= j < |d| && d[j] == w[i];
    }
  }

  /** main.py:86-87 always give a clean fragment. */
  lemma NormalizeShape(s: string)
    ensures IsCleanFragment(Normalize(s))
  {
    var d := Depunctuate(s);
    DepunctuatedWords(s);
    JoinIsClean(Words(d));
    StripClean(JoinWords(Words(d)));
  }

  /** `split()` undoes `" ".join` on proper words. */
  lemma {:induction false} WordsOfJoin(ws: seq<string>)
    requires ProperWords(ws, false)
    ensures Words(JoinWords(ws)) == ws
  {
    if |ws| == 1 {
      var w := ws[0];
      assert w in ws;
      assert WordLength(w) == |w|;
      assert w[|w|..] == [];
    } else if |ws| > 1 {
      var w := ws[0];
      assert w in ws;
      var rest := JoinWords(ws[1..]);
      var j := w + " " + rest;
      assert j == JoinWords(ws);
      assert WordLength(j) == |w| by {
        assert j[..|w|] == w;
        assert j[|w|] == ' ';
      }
      assert j[..|w|] == w;
      assert j[|w|..][1..] == rest;
      WordsOfJoin(ws[1..]);
    }
  }

  /** Re-applying main.py:86-87 to their own output changes nothing. */
  lemma NormalizeIdempotent(s: string)
    ensures Normalize(Normalize(s)) == Normalize(s)
  {
    var ws := Words(Depunctuate(s));
    DepunctuatedWords(s);
    var n := JoinWords(ws);
    JoinIsClean(ws);
    StripClean(n);
    assert Normalize(s) == n;
    assert Depunctuate(n) == n;
    WordsOfJoin(ws);
  }
}

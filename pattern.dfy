/**
 * The new-name expression of `process_matches` (main.py:303): three `str.replace` calls in a fixed
 * order on the user's pattern, with `str(n).zfill(2)` for the season and episode numbers, and the
 * original extension appended.
 */
module RenamePattern {
  import opened Text
  import SearchCleaner

  // ---------------------------------------------------------------------------------------------
  // `str.replace`, and `str.split` / `str.join` as its reference

  /** `s.replace(find, repl)`: every occurrence of `find`, leftmost first and non-overlapping. */
  function Replace(s: string, find: string, repl: string): string
    requires |find| > 0
    decreases |s|
  {
    if |s| == 0 then []
    else if StartsWith(s, find) then repl + Replace(s[|find|..], find, repl)
    else [s[0]] + Replace(s[1..], find, repl)
  }

  /** `s.split(sep)`: the pieces between the occurrences of `sep`, leftmost first. */
  function Split(s: string, sep: string): (r: seq<string>)
    requires |sep| > 0
    ensures |r| >= 1
    decreases |s|
  {
    if |s| == 0 then [[]]
    else if StartsWith(s, sep) then [[]] + Split(s[|sep|..], sep)
    else
      var rest := Split(s[1..], sep);
      [[s[0]] + rest[0]] + rest[1..]
  }

  /** `sep.join(pieces)` */
  function JoinWith(pieces: seq<string>, sep: string): string
    requires |pieces| >= 1
    decreases |pieces|
  {
    if |pieces| == 1 then pieces[0] else pieces[0] + sep + JoinWith(pieces[1..], sep)
  }

  /** Putting a character before the first piece puts it before the joined text. */
  lemma {:induction false} JoinWithCons(c: char, pieces: seq<string>, sep: string)
    requires |pieces| >= 1
    ensures JoinWith([[c] + pieces[0]] + pieces[1..], sep) == [c] + JoinWith(pieces, sep)
  {
    var ps := [[c] + pieces[0]] + pieces[1..];
    if |pieces| > 1 {
      assert ps[1..] == pieces[1..];
    }
  }

  /** Python's identity `s.replace(find, repl) == repl.join(s.split(find))`. */
  lemma {:induction false} ReplaceIsSplitJoin(s: string, find: string, repl: string)
    requires |find| > 0
    ensures Replace(s, find, repl) == JoinWith(Split(s, find), repl)
    decreases |s|
  {
    if |s| > 0 {
      if StartsWith(s, find) {
        ReplaceIsSplitJoin(s[|find|..], find, repl);
        assert ([[]] + Split(s[|find|..], find))[1..] == Split(s[|find|..], find);
      } else {
        ReplaceIsSplitJoin(s[1..], find, repl);
        JoinWithCons(s[0], Split(s[1..], find), repl);
      }
    }
  }

  /** Joining the pieces of a split with the separator gives back the text. */
  lemma {:induction false} SplitJoinRoundTrip(s: string, sep: string)
    requires |sep| > 0
    ensures JoinWith(Split(s, sep), sep) == s
    decreases |s|
  {
    if |s| > 0 {
      StartsWithOccurs(s, sep);
      if StartsWith(s, sep) {
        SplitJoinRoundTrip(s[|sep|..], sep);
        assert ([[]] + Split(s[|sep|..], sep))[1..] == Split(s[|sep|..], sep);
        assert s == s[..|sep|] + s[|sep|..];
      } else {
        SplitJoinRoundTrip(s[1..], sep);
        JoinWithCons(s[0], Split(s[1..], sep), sep);
        assert s == [s[0]] + s[1..];
      }
    }
  }

  /** Replacing a string by itself changes nothing. */
  lemma ReplaceByItself(s: string, find: string)
    requires |find| > 0
    ensures Replace(s, find, find) == s
  {
    ReplaceIsSplitJoin(s, find, find);
    SplitJoinRoundTrip(s, find);
  }

  /** A text in which `find` does not occur is left as it is. */
  lemma {:induction false} ReplaceAbsent(s: string, find: string, repl: string)
    requires |find| > 0
    requires !Contains(s, find)
    ensures Replace(s, find, repl) == s
    decreases |s|
  {
    if |s| > 0 {
      StartsWithOccurs(s, find);
      assert !OccursAt(s, find, 0);
      assert !Contains(s[1..], find) by {
        if Contains(s[1..], find) {
          var k :| 0 <= k <= |s[1..]| && OccursAt(s[1..], find, k);
          assert s[k + 1..k + 1 + |find|] == s[1..][k..k + |find|];
          assert OccursAt(s, find, k + 1);
        }
      }
      ReplaceAbsent(s[1..], find, repl);
    }
  }

  // ---------------------------------------------------------------------------------------------
  // `str(n).zfill(2)`

  function Zeros(n: nat): (r: string)
    ensures |r| == n && forall i :: 0 <= i < n ==> r[i] == '0'
  {
    seq(n, _ => '0')
  }

  /** `s.zfill(width)`: zeros on the left up to `width`, after a leading sign; never shortened. */
  function ZFill(s: string, width: int): string {
    if |s| >= width then s
    else if |s| > 0 && (s[0] == '+' || s[0] == '-') then [s[0]] + Zeros(width - |s|) + s[1..]
    else Zeros(width - |s|) + s
  }

  /**
   * `zfill` keeps the sign, then adds zeros, then keeps the remaining characters: the length is the
   * larger of `width` and the original length, and a string that is long enough is unchanged.
   */
  lemma ZFillShape(s: string, width: int)
    ensures var r := ZFill(s, width);
      var k := if |s| > 0 && (s[0] == '+' || s[0] == '-') then 1 else 0;
      && |r| == (if width > |s| then width else |s|)
      && (|s| >= width ==> r == s)
      && r[..k] == s[..k]
      && r[|r| - (|s| - k)..] == s[k..]
      && forall i :: k <= i < |r| - (|s| - k) ==> r[i] == '0'
  {
  }

  /**
   * Padding a natural number gives at least `width` characters, is never a truncation, and reads
   * back as the same number.
   */
  lemma PadNatural(n: nat, width: int)
    ensures var r := ZFill(NatToString(n), width);
      var d := NatToString(n);
      && |r| == (if width > |d| then width else |d|)
      && r[|r| - |d|..] == d
      && (forall i :: 0 <= i < |r| ==> IsDigit(r[i]))
      && DecimalValue(r) == n
  {
    var d := NatToString(n);
    DecimalOfNatToString(n);
    if |d| < width {
      DecimalOfZeros(width - |d|, d);
      assert ZFill(d, width) == seq(width - |d|, _ => '0') + d;
    }
  }

  /** A negative number keeps its sign in front and pads its digits to one place less. */
  lemma PadNegative(n: int, width: int)
    requires n < 0
    ensures ZFill(IntToString(n), width) == "-" + ZFill(NatToString(-n), width - 1)
  {
  }

  /** `str(n).zfill(2)` */
  function Pad2(n: int): string {
    ZFill(IntToString(n), 2)
  }

  /** `f"S{str(s).zfill(2)}E{str(e).zfill(2)}"` */
  function SeasonEpisodeTag(s: int, e: int): string {
    "S" + Pad2(s) + "E" + Pad2(e)
  }

  /**
   * For non-negative numbers the tag is a marker that the search cleaner removes (`[Ss]\d+[Ee]\d+`),
   * split right after the padded season, and both numbers read back from it.
   */
  lemma TagReadsBack(s: nat, e: nat)
    ensures var t := SeasonEpisodeTag(s, e);
      var k := |Pad2(s)| + 1;
      && SearchCleaner.IsSeasonEpisodeAt(t, k)
      && DecimalValue(t[1..k]) == s && DecimalValue(t[k + 1..]) == e
      && SearchCleaner.IsSeasonEpisodeMarker(t)
  {
    PadNatural(s, 2);
    PadNatural(e, 2);
    var ps, pe := Pad2(s), Pad2(e);
    var t := SeasonEpisodeTag(s, e);
    var k := |ps| + 1;
    assert t == "S" + ps + "E" + pe;
    assert t[1..k] == ps && t[k] == 'E' && t[k + 1..] == pe;
    assert SearchCleaner.IsDigits(ps) && SearchCleaner.IsDigits(pe);
    assert SearchCleaner.IsSeasonEpisodeAt(t, k);
  }

  // ---------------------------------------------------------------------------------------------
  // The new name

  const ShowPlaceholder := "{n}"
  const TagPlaceholder := "{s00e00}"
  const TitlePlaceholder := "{t}"

  /** main.py:303: show name, then season/episode tag, then title, then the old extension. */
  function Render(pattern: string, show: string, s: int, e: int, title: string, ext: string): (r: string)
    ensures |r| >= |ext| && r[|r| - |ext|..] == ext
  {
    var withShow := Replace(pattern, ShowPlaceholder, show);
    var withTag := Replace(withShow, TagPlaceholder, SeasonEpisodeTag(s, e));
    Replace(withTag, TitlePlaceholder, title) + ext
  }

  /** A pattern without placeholders is used as it is, with the extension appended. */
  lemma RenderPlain(pattern: string, show: string, s: int, e: int, title: string, ext: string)
    requires !Contains(pattern, ShowPlaceholder) && !Contains(pattern, TagPlaceholder) && !Contains(pattern, TitlePlaceholder)
    ensures Render(pattern, show, s, e, title, ext) == pattern + ext
  {
    ReplaceAbsent(pattern, ShowPlaceholder, show);
    ReplaceAbsent(pattern, TagPlaceholder, SeasonEpisodeTag(s, e));
    ReplaceAbsent(pattern, TitlePlaceholder, title);
  }

  /** The whole text being the searched string: it is replaced once. */
  lemma ReplaceWhole(find: string, repl: string)
    requires |find| > 0
    ensures Replace(find, find, repl) == repl
  {
    StartsWithSelf(find);
    assert find[|find|..] == [];
  }

  /** A prefix without the first character of `find` holds no occurrence and is kept as it is. */
  lemma {:induction false} ReplaceSkipPrefix(a: string, b: string, find: string, repl: string)
    requires |find| > 0 && find[0] !in a
    ensures Replace(a + b, find, repl) == a + Replace(b, find, repl)
    decreases |a|
  {
    if |a| > 0 {
      assert (a + b)[1..] == a[1..] + b;
      ReplaceSkipPrefix(a[1..], b, find, repl);
    } else {
      assert a + b == b;
    }
  }

  /** An occurrence at the start is replaced, and the scan goes on after it. */
  lemma ReplaceAtStart(b: string, find: string, repl: string)
    requires |find| > 0
    ensures Replace(find + b, find, repl) == repl + Replace(b, find, repl)
  {
    StartsWithSelf(find);
    assert StartsWith(find + b, find) by { StartsWithOccurs(find + b, find); StartsWithOccurs(find, find); }
    assert (find + b)[|find|..] == b;
  }

  /** The tag holds no brace, so no placeholder can start inside it. */
  lemma TagHasNoBrace(s: int, e: int)
    ensures '{' !in SeasonEpisodeTag(s, e)
  {
    NoBraceInNumber(s);
    NoBraceInNumber(e);
  }

  lemma NoBraceInNumber(n: int)
    ensures '{' !in Pad2(n)
  {
    var d := if n >= 0 then NatToString(n) else NatToString(-n);
    assert forall i :: 0 <= i < |d| ==> IsDigit(d[i]);
  }

  /** A text that starts with a character but not with `find` keeps that character. */
  lemma ReplaceSkipChar(c: char, t: string, find: string, repl: string)
    requires |find| > 0 && !StartsWith([c] + t, find)
    ensures Replace([c] + t, find, repl) == [c] + Replace(t, find, repl)
  {
    assert ([c] + t)[1..] == t;
  }

  /** `{n}` does not occur in `{s00e00}` nor in `{t}`. */
  lemma ShowPlaceholderElsewhere(a: string, b: string, show: string)
    requires '{' !in a && '{' !in b
    ensures Replace(a + ("{s00e00}" + (b + "{t}")), "{n}", show) == a + ("{s00e00}" + (b + "{t}"))
  {
    var x := "s00e00}" + b;
    assert "{s00e00}" + (b + "{t}") == ['{'] + (x + "{t}");
    assert '{' !in x;
    ReplaceSkipChar('{', x + "{t}", "{n}", show);
    ReplaceSkipPrefix(x, "{t}", "{n}", show);
    assert "{t}" == ['{'] + "t}";
    ReplaceSkipChar('{', "t}", "{n}", show);
    ReplaceSkipPrefix("t}", [], "{n}", show);
    assert "t}" + [] == "t}";
    ReplaceSkipPrefix(a, "{s00e00}" + (b + "{t}"), "{n}", show);
  }

  /** `{s00e00}` does not occur in `{t}`. */
  lemma TagPlaceholderElsewhere(b: string, tag: string)
    requires '{' !in b
    ensures Replace(b + "{t}", "{s00e00}", tag) == b + "{t}"
  {
    assert "{t}" == ['{'] + "t}";
    ReplaceSkipChar('{', "t}", "{s00e00}", tag);
    ReplaceSkipPrefix("t}", [], "{s00e00}", tag);
    assert "t}" + [] == "t}";
    ReplaceSkipPrefix(b, "{t}", "{s00e00}", tag);
  }

  /**
   * A pattern `{n}a{s00e00}b{t}` whose literal parts and show name hold no brace: each placeholder
   * is replaced exactly once, in place.
   */
  lemma OnePlaceholderEach(a: string, b: string, show: string, s: int, e: int, title: string, ext: string)
    requires '{' !in a && '{' !in b && '{' !in show
    ensures Render("{n}" + (a + ("{s00e00}" + (b + "{t}"))), show, s, e, title, ext) ==
            show + a + SeasonEpisodeTag(s, e) + b + title + ext
  {
    var tag := SeasonEpisodeTag(s, e);
    TagHasNoBrace(s, e);
    ReplaceAtStart(a + ("{s00e00}" + (b + "{t}")), "{n}", show);
    ShowPlaceholderElsewhere(a, b, show);
    var p1 := (show + a) + ("{s00e00}" + (b + "{t}"));
    assert Replace("{n}" + (a + ("{s00e00}" + (b + "{t}"))), "{n}", show) == p1;
    ReplaceSkipPrefix(show + a, "{s00e00}" + (b + "{t}"), "{s00e00}", tag);
    ReplaceAtStart(b + "{t}", "{s00e00}", tag);
    TagPlaceholderElsewhere(b, tag);
    var p2 := ((show + a) + (tag + b)) + "{t}";
    assert Replace(p1, "{s00e00}", tag) == p2;
    ReplaceSkipPrefix((show + a) + (tag + b), "{t}", "{t}", title);
    ReplaceWhole("{t}", title);
    assert Replace(p2, "{t}", title) == ((show + a) + (tag + b)) + title;
    assert ((show + a) + (tag + b)) + title + ext == show + a + tag + b + title + ext;
  }

  /** The default pattern `{n} - {s00e00} - {t}` on a show name without braces. */
  lemma DefaultPattern(show: string, s: int, e: int, title: string, ext: string)
    requires '{' !in show
    ensures Render("{n} - {s00e00} - {t}", show, s, e, title, ext) ==
            show + " - " + SeasonEpisodeTag(s, e) + " - " + title + ext
  {
    assert "{n} - {s00e00} - {t}" == "{n}" + (" - " + ("{s00e00}" + (" - " + "{t}")));
    OnePlaceholderEach(" - ", " - ", show, s, e, title, ext);
  }

  /** Season 1 and episode 2 give the tag "S01E02", as in "Foo - S01E02 - Bar.mkv". */
  lemma TagExample()
    ensures SeasonEpisodeTag(1, 2) == "S01E02"
  {
    assert NatToString(1) == "1" && NatToString(2) == "2";
    assert Zeros(1) == "0";
  }

  /**
   * The show name is substituted first, so placeholders inside it are substituted by the later
   * steps: a show "A{t}" with title "B" under the pattern `{n}` gives "AB".
   */
  lemma ShowNameSubstitutedFirst(s: int, e: int, ext: string)
    ensures Render("{n}", "A{t}", s, e, "B", ext) == "AB" + ext
  {
    ReplaceWhole("{n}", "A{t}");
    assert Replace("A{t}", "{s00e00}", SeasonEpisodeTag(s, e)) == "A{t}";
    ReplaceSkipPrefix("A", "{t}", "{t}", "B");
    assert "A{t}" == "A" + "{t}";
    ReplaceWhole("{t}", "B");
  }
}

/**
 * The text heuristics and formatters of the package: year and resolution
 * read off a title, magnet links, file-name cleaning, human-readable sizes,
 * UTC dates, and the rows the CSV writer receives.
 */
module Utils {
  import opened Wrappers
  import opened PyText
  import opened Json
  import Seqs
  import UrlQuote
  import UtcCalendar
  import Models

  // ---------------------------------------------------------------------
  // extract_year: re.findall(r"(19\d{2}|20\d{2})", title)[-1]
  // ---------------------------------------------------------------------

  /** A year "19dd" or "20dd" starts at position i. */
  predicate YearAt(s: string, i: nat) {
    i + 4 <= |s|
    && ((s[i] == '1' && s[i + 1] == '9') || (s[i] == '2' && s[i + 1] == '0'))
    && IsDigit(s[i + 2]) && IsDigit(s[i + 3])
  }

  /**
   * The start positions of the matches `re.findall` reports from position
   * i on: the scan moves past a match and one character past a non-match.
   */
  function YearMatches(s: string, i: nat): (ps: seq<nat>)
    decreases |s| - i
    ensures forall k :: 0 <= k < |ps| ==> i <= ps[k] && YearAt(s, ps[k])
    ensures forall k :: 0 < k < |ps| ==> ps[k - 1] + 4 <= ps[k]
  {
    if i + 4 > |s| then []
    else if YearAt(s, i) then [i] + YearMatches(s, i + 4)
    else YearMatches(s, i + 1)
  }

  /** `extract_year(title)`. */
  function ExtractYear(title: string): (y: string) {
    if title == "" then ""
    else
      var ps := YearMatches(title, 0);
      if ps == [] then "" else title[ps[|ps| - 1]..ps[|ps| - 1] + 4]
  }

  /** The scan finds nothing exactly when no year starts at or after i. */
  lemma {:induction false} YearMatchesEmpty(s: string, i: nat)
    ensures YearMatches(s, i) == [] <==> forall j: nat :: i <= j ==> !YearAt(s, j)
    decreases |s| - i
  {
    if i + 4 <= |s| && !YearAt(s, i) {
      YearMatchesEmpty(s, i + 1);
      forall j: nat | i <= j && YearAt(s, j) ensures i + 1 <= j {
      }
    }
  }

  /**
   * The scan is leftmost and greedy: the first match is the first year at or
   * after i, and each later match the first year at or after the end of the
   * match before it.
   */
  lemma {:induction false} YearMatchesLeftmost(s: string, i: nat)
    ensures var ps := YearMatches(s, i);
      |ps| > 0 ==> forall j: nat :: i <= j < ps[0] ==> !YearAt(s, j)
    ensures var ps := YearMatches(s, i);
      forall k, j: nat :: 0 < k < |ps| && ps[k - 1] + 4 <= j < ps[k] ==> !YearAt(s, j)
    decreases |s| - i
  {
    if i + 4 <= |s| {
      if YearAt(s, i) {
        YearMatchesLeftmost(s, i + 4);
        var ps, rest := YearMatches(s, i), YearMatches(s, i + 4);
        assert ps == [i] + rest;
        forall k, j: nat | 0 < k < |ps| && ps[k - 1] + 4 <= j < ps[k] ensures !YearAt(s, j) {
          if k > 1 {
            assert ps[k - 1] == rest[k - 2] && ps[k] == rest[k - 1];
          }
        }
      } else {
        YearMatchesLeftmost(s, i + 1);
      }
    }
  }

  /** No year starts after the end of the last match. */
  lemma {:induction false} YearMatchesLast(s: string, i: nat)
    requires YearMatches(s, i) != []
    ensures var ps := YearMatches(s, i);
      forall j: nat :: ps[|ps| - 1] + 4 <= j ==> !YearAt(s, j)
    decreases |s| - i
  {
    if YearAt(s, i) {
      if YearMatches(s, i + 4) == [] {
        YearMatchesEmpty(s, i + 4);
      } else {
        YearMatchesLast(s, i + 4);
      }
    } else {
      YearMatchesLast(s, i + 1);
    }
  }

  /**
   * `extract_year` gives "" exactly when no "19dd"/"20dd" occurs in the
   * title; otherwise the four characters at a position of the scan (see
   * YearMatchesLeftmost) after whose end no year starts: the last match
   * `re.findall` reports.
   */
  lemma ExtractYearSpec(title: string)
    ensures ExtractYear(title) == "" <==> forall j: nat :: !YearAt(title, j)
    ensures ExtractYear(title) != "" ==>
      exists p :: p in YearMatches(title, 0) && ExtractYear(title) == title[p..p + 4]
        && forall j: nat :: p + 4 <= j ==> !YearAt(title, j)
  {
    YearMatchesEmpty(title, 0);
    var ps := YearMatches(title, 0);
    if ps != [] {
      YearMatchesLast(title, 0);
      var p := ps[|ps| - 1];
      assert p in ps;
    }
  }

  /** The examples of the test suite. */
  lemma ExtractYearExamples()
    ensures ExtractYear("Movie.2019.1080p") == "2019"
    ensures ExtractYear("Classic.1995.Remaster") == "1995"
    ensures ExtractYear("No.Year.Here") == ""
  {
    YearOfMovie();
    YearOfClassic();
    YearOfNone();
  }

  lemma YearOfMovie()
    ensures ExtractYear("Movie.2019.1080p") == "2019"
  {
    MovieYear("Movie.2019.1080p");
  }

  lemma MovieYear(t: string)
    requires t == "Movie.2019.1080p"
    ensures ExtractYear(t) == "2019"
  {
    MovieYearMatch(t);
    assert YearMatches(t, 5) == [6];
    assert YearMatches(t, 4) == [6];
    assert YearMatches(t, 3) == [6];
    assert YearMatches(t, 2) == [6];
    assert YearMatches(t, 1) == [6];
    assert YearMatches(t, 0) == [6];
  }

  lemma MovieYearMatch(t: string)
    requires t == "Movie.2019.1080p"
    ensures YearMatches(t, 6) == [6]
  {
    assert YearMatches(t, 13) == [];
    assert YearMatches(t, 12) == [];
    assert YearMatches(t, 11) == [];
    assert YearMatches(t, 10) == [];
    assert YearMatches(t, 9) == [];
    assert YearMatches(t, 8) == [];
    assert YearMatches(t, 7) == [];
    assert YearMatches(t, 6) == [6];
  }

  lemma YearOfClassic()
    ensures ExtractYear("Classic.1995.Remaster") == "1995"
  {
    ClassicYear("Classic.1995.Remaster");
  }

  lemma ClassicYear(t: string)
    requires t == "Classic.1995.Remaster"
    ensures ExtractYear(t) == "1995"
  {
    ClassicYearMatch(t);
    assert YearMatches(t, 7) == [8];
    assert YearMatches(t, 6) == [8];
    assert YearMatches(t, 5) == [8];
    assert YearMatches(t, 4) == [8];
    assert YearMatches(t, 3) == [8];
    assert YearMatches(t, 2) == [8];
    assert YearMatches(t, 1) == [8];
    assert YearMatches(t, 0) == [8];
  }

  lemma ClassicYearMatch(t: string)
    requires t == "Classic.1995.Remaster"
    ensures YearMatches(t, 8) == [8]
  {
    assert YearMatches(t, 18) == [];
    assert YearMatches(t, 17) == [];
    assert YearMatches(t, 16) == [];
    assert YearMatches(t, 15) == [];
    assert YearMatches(t, 14) == [];
    assert YearMatches(t, 13) == [];
    assert YearMatches(t, 12) == [];
    assert YearMatches(t, 11) == [];
    assert YearMatches(t, 10) == [];
    assert YearMatches(t, 9) == [];
    assert YearMatches(t, 8) == [8];
  }

  lemma YearOfNone()
    ensures ExtractYear("No.Year.Here") == ""
  {
    NoYear("No.Year.Here");
  }

  lemma NoYear(t: string)
    requires t == "No.Year.Here"
    ensures ExtractYear(t) == ""
  {
    assert YearMatches(t, 9) == [];
    assert YearMatches(t, 8) == [];
    assert YearMatches(t, 7) == [];
    assert YearMatches(t, 6) == [];
    assert YearMatches(t, 5) == [];
    assert YearMatches(t, 4) == [];
    assert YearMatches(t, 3) == [];
    assert YearMatches(t, 2) == [];
    assert YearMatches(t, 1) == [];
    assert YearMatches(t, 0) == [];
  }

  /**
   * The scan does not look for the rightmost year: in "202019" it takes
   * "2020" and moves past it, so the "2019" overlapping it is never seen.
   */
  lemma ExtractYearOverlap()
    ensures YearAt("202019", 2)
    ensures ExtractYear("202019") == "2020"
  {
    OverlapYear("202019");
  }

  lemma OverlapYear(t: string)
    requires t == "202019"
    ensures ExtractYear(t) == "2020"
  {
    assert YearMatches(t, 4) == [];
    assert YearMatches(t, 0) == [0];
  }

  /**
   * On "19201999" the scan takes "1920" and then "1999", so the answer is
   * "1999", although "2019" starts after "1920" and has no year after it.
   */
  lemma ExtractYearRescan()
    ensures YearAt("19201999", 2)
    ensures ExtractYear("19201999") == "1999"
  {
    RescanYear("19201999");
  }

  lemma RescanYear(t: string)
    requires t == "19201999"
    ensures ExtractYear(t) == "1999"
  {
    assert YearMatches(t, 8) == [];
    assert YearMatches(t, 4) == [4];
    assert YearMatches(t, 0) == [0, 4];
  }

  // ---------------------------------------------------------------------
  // extract_resolution / is_high_quality
  // ---------------------------------------------------------------------

  /** Every (rank, label) pair `extract_resolution` can return. */
  const ResolutionTiers: seq<(int, string)> :=
    [(4, "2160p"), (3, "1440p"), (3, "1080p"), (2, "720p"), (2, "480p"), (1, "")]

  /** `extract_resolution(title)`: the first entry of the table the lowered title mentions. */
  function ExtractResolution(title: string): (r: (int, string))
    ensures r in ResolutionTiers
  {
    if title == "" then (1, "")
    else
      var lower := Lower(title);
      if Contains(lower, "2160p") || Contains(lower, "4k") || Contains(lower, "uhd") then (4, "2160p")
      else if Contains(lower, "1440p") then (3, "1440p")
      else if Contains(lower, "1080p") then (3, "1080p")
      else if Contains(lower, "720p") then (2, "720p")
      else if Contains(lower, "480p") then (2, "480p")
      else (1, "")
  }

  /** `is_high_quality(title)`: 1080p or better. */
  function IsHighQuality(title: string): (hq: bool)
    ensures hq <==> ExtractResolution(title).1 in {"2160p", "1440p", "1080p"}
  {
    ExtractResolution(title).0 >= 3
  }

  /** The examples of the test suite. */
  lemma ExtractResolutionExamples()
    ensures ExtractResolution("Show.S01E01.2160p").1 == "2160p"
    ensures ExtractResolution("Show.1080p").1 == "1080p"
    ensures ExtractResolution("Show.720p").1 == "720p"
    ensures ExtractResolution("Show").1 == ""
  {
    Resolution2160Example();
    Resolution1080Example();
    Resolution720Example();
    ResolutionNoneExample();
  }

  lemma Resolution2160Example()
    ensures ExtractResolution("Show.S01E01.2160p").1 == "2160p"
  {
    LowerOf2160Title();
    ContainsAt("show.s01e01.2160p", "2160p", 12);
  }

  lemma LowerOf2160Title()
    ensures Lower("Show.S01E01.2160p") == "show.s01e01.2160p"
  {
  }

  lemma Resolution1080Example()
    ensures ExtractResolution("Show.1080p").1 == "1080p"
  {
    LowerOf1080Title();
    ResolutionOf1080("Show.1080p");
  }

  lemma LowerOf1080Title()
    ensures Lower("Show.1080p") == "show.1080p"
    ensures '2' !in "show.1080p" && '4' !in "show.1080p" && 'k' !in "show.1080p" && 'u' !in "show.1080p"
  {
  }

  lemma ResolutionOf1080(title: string)
    requires Lower(title) == "show.1080p"
    requires '2' !in Lower(title) && '4' !in Lower(title) && 'k' !in Lower(title) && 'u' !in Lower(title)
    ensures ExtractResolution(title).1 == "1080p"
  {
    var l := Lower(title);
    ContainsChars(l, "2160p", '2');
    ContainsChars(l, "4k", 'k');
    ContainsChars(l, "uhd", 'u');
    ContainsChars(l, "1440p", '4');
    ContainsAt(l, "1080p", 5);
  }

  lemma Resolution720Example()
    ensures ExtractResolution("Show.720p").1 == "720p"
  {
    LowerOf720Title();
    ResolutionOf720("Show.720p");
  }

  lemma LowerOf720Title()
    ensures Lower("Show.720p") == "show.720p"
    ensures '1' !in "show.720p" && 'k' !in "show.720p" && 'u' !in "show.720p"
  {
  }

  lemma ResolutionOf720(title: string)
    requires Lower(title) == "show.720p"
    requires '1' !in Lower(title) && 'k' !in Lower(title) && 'u' !in Lower(title)
    ensures ExtractResolution(title).1 == "720p"
  {
    var l := Lower(title);
    ContainsChars(l, "2160p", '1');
    ContainsChars(l, "4k", 'k');
    ContainsChars(l, "uhd", 'u');
    ContainsChars(l, "1440p", '1');
    ContainsChars(l, "1080p", '1');
    ContainsAt(l, "720p", 5);
  }

  lemma ResolutionNoneExample()
    ensures ExtractResolution("Show").1 == ""
  {
    var l := "show";
    LowerOfPlainTitle();
    ContainsChars(l, "2160p", 'p');
    ContainsChars(l, "4k", 'k');
    ContainsChars(l, "uhd", 'u');
    ContainsChars(l, "1440p", 'p');
    ContainsChars(l, "1080p", 'p');
    ContainsChars(l, "720p", 'p');
    ContainsChars(l, "480p", 'p');
  }

  lemma LowerOfPlainTitle()
    ensures Lower("Show") == "show"
    ensures 'p' !in "show" && 'k' !in "show" && 'u' !in "show"
  {
  }

  /** The table is read in order: a title naming both 4K and 1080p gets the 4K entry. */
  lemma ResolutionTableOrder()
    ensures ExtractResolution("Show.4K.1080p") == (4, "2160p")
  {
    assert Lower("Show.4K.1080p") == "show.4k.1080p";
    ContainsAt("show.4k.1080p", "4k", 5);
  }

  /** The matching is case-insensitive: lowering the title first changes nothing. */
  lemma ExtractResolutionIgnoresCase(title: string)
    ensures ExtractResolution(Lower(title)) == ExtractResolution(title)
  {
    LowerIdempotent(title);
  }

  /** Which table entries a text mentions only grows when text is added. */
  lemma MentionsGrow(t: string, u: string, sub: string)
    ensures Contains(Lower(t), sub) ==> Contains(Lower(t + u), sub)
    ensures Contains(Lower(u), sub) ==> Contains(Lower(t + u), sub)
  {
    LowerAppend(t, u);
    ContainsAppend(Lower(t), Lower(u), sub);
  }

  /**
   * Adding words to a title, before or after, never lowers its resolution
   * rank, so it never turns a high-quality title into a low-quality one.
   */
  lemma ExtractResolutionMonotone(t: string, u: string)
    ensures ExtractResolution(t + u).0 >= ExtractResolution(t).0
    ensures ExtractResolution(t + u).0 >= ExtractResolution(u).0
    ensures IsHighQuality(t) || IsHighQuality(u) ==> IsHighQuality(t + u)
  {
    MentionsGrow(t, u, "2160p");
    MentionsGrow(t, u, "4k");
    MentionsGrow(t, u, "uhd");
    MentionsGrow(t, u, "1440p");
    MentionsGrow(t, u, "1080p");
    MentionsGrow(t, u, "720p");
    MentionsGrow(t, u, "480p");
  }

  // ---------------------------------------------------------------------
  // build_magnet_link (BEP 9: xt=urn:btih:<hash>, dn=<display name>)
  // ---------------------------------------------------------------------

  const MagnetPrefix: string := "magnet:?xt=urn:btih:"

  /** `build_magnet_link(info_hash, name)`. */
  function BuildMagnetLink(infoHash: string, name: string): (m: string)
    ensures infoHash == "" ==> m == ""
    ensures infoHash != "" && name == "" ==> m == MagnetPrefix + infoHash
    ensures infoHash != "" ==> MagnetPrefix + infoHash <= m
  {
    if infoHash == "" then ""
    else
      var magnet := MagnetPrefix + infoHash;
      if name != "" then magnet + "&dn=" + UrlQuote.Quote(name) else magnet
  }

  /**
   * With a hash and a name, the link is the hash part, "&dn=", and a value
   * that decodes back to the name and holds no "&" or "#" that could end
   * the parameter early.
   */
  lemma MagnetDisplayName(infoHash: string, name: string)
    requires infoHash != "" && name != ""
    ensures var m, head := BuildMagnetLink(infoHash, name), MagnetPrefix + infoHash + "&dn=";
      head <= m
      && UrlQuote.Unquote(m[|head|..]) == Some(name)
      && forall i :: |head| <= i < |m| ==> m[i] != '&' && m[i] != '#'
  {
    var m, head := BuildMagnetLink(infoHash, name), MagnetPrefix + infoHash + "&dn=";
    var q := UrlQuote.Quote(name);
    assert m == head + q;
    assert m[|head|..] == q;
    UrlQuote.UnquoteQuote(name);
    UrlQuote.QuoteNoDelimiters(name);
    forall i | |head| <= i < |m| ensures m[i] != '&' && m[i] != '#' {
      assert m[i] == q[i - |head|];
    }
  }

  // ---------------------------------------------------------------------
  // safe_filename: re.sub(r"[^\w\-]+", "_", value).strip("_") or "results"
  // ---------------------------------------------------------------------

  /** The characters a file name keeps: `\w` and "-". */
  predicate IsNameChar(c: char) {
    IsWordChar(c) || c == '-'
  }

  predicate AllNameChars(s: string) {
    forall i :: 0 <= i < |s| ==> IsNameChar(s[i])
  }

  /** Each maximal run of other characters becomes one "_"; `inRun` says a run is already open. */
  function ReplaceRuns(s: string, inRun: bool): (r: string)
    ensures AllNameChars(r)
  {
    if s == [] then ""
    else if IsNameChar(s[0]) then [s[0]] + ReplaceRuns(s[1..], false)
    else (if inRun then "" else "_") + ReplaceRuns(s[1..], true)
  }

  function StripLeading(s: string, c: char): (r: string)
    ensures |r| <= |s|
    ensures r == s[|s| - |r|..]
    ensures r == [] || r[0] != c
  {
    if s != [] && s[0] == c then StripLeading(s[1..], c) else s
  }

  function StripTrailing(s: string, c: char): (r: string)
    ensures |r| <= |s|
    ensures r == s[..|r|]
    ensures r == [] || r[|r| - 1] != c
  {
    if s != [] && s[|s| - 1] == c then StripTrailing(s[..|s| - 1], c) else s
  }

  /** `safe_filename(value)`. */
  function SafeFilename(value: string): (r: string)
    ensures r != []
    ensures AllNameChars(r)
    ensures r[0] != '_' && r[|r| - 1] != '_'
  {
    var replaced := ReplaceRuns(value, false);
    var cleaned := StripTrailing(StripLeading(replaced, '_'), '_');
    StripKeepsNameChars(replaced);
    if cleaned == "" then "results" else cleaned
  }

  /** Stripping "_" from both ends keeps only characters that were there. */
  lemma StripKeepsNameChars(s: string)
    requires AllNameChars(s)
    ensures AllNameChars(StripTrailing(StripLeading(s, '_'), '_'))
  {
    var left := StripLeading(s, '_');
    forall i | 0 <= i < |left| ensures IsNameChar(left[i]) {
      assert left[i] == s[|s| - |left| + i];
    }
    var cleaned := StripTrailing(left, '_');
    forall i | 0 <= i < |cleaned| ensures IsNameChar(cleaned[i]) {
      assert cleaned[i] == left[i];
    }
  }

  lemma {:induction false} ReplaceRunsKeeps(s: string, inRun: bool)
    requires AllNameChars(s)
    ensures ReplaceRuns(s, inRun) == s
  {
    if s != [] {
      ReplaceRunsKeeps(s[1..], false);
    }
  }

  /** A cleaned name is left as it is: cleaning twice is cleaning once. */
  lemma SafeFilenameIdempotent(value: string)
    ensures SafeFilename(SafeFilename(value)) == SafeFilename(value)
  {
    var r := SafeFilename(value);
    ReplaceRunsKeeps(r, false);
    SafeFilenameOfClean(r);
  }

  /** A non-empty name of name characters with no "_" at either end is its own clean form. */
  lemma SafeFilenameOfClean(r: string)
    requires r != [] && ReplaceRuns(r, false) == r && r[0] != '_' && r[|r| - 1] != '_'
    ensures SafeFilename(r) == r
  {
    assert StripLeading(r, '_') == r;
    assert StripTrailing(r, '_') == r;
  }

  /** Runs of other characters collapse to one "_"; a name with nothing left falls back to "results". */
  lemma SafeFilenameExamples()
    ensures SafeFilename("a b") == "a_b"
    ensures SafeFilename("???") == "results"
  {
    assert ReplaceRuns("b", true) == "b";
    assert ReplaceRuns(" b", false) == "_b";
    assert ReplaceRuns("a b", false) == "a_b";
    assert ReplaceRuns("?", true) == "";
    assert ReplaceRuns("??", true) == "";
    assert ReplaceRuns("???", false) == "_";
  }

  // ---------------------------------------------------------------------
  // format_size_bytes
  // ---------------------------------------------------------------------

  /** The unit names, B through PB. */
  const SizeUnits: seq<string> := ["B", "KB", "MB", "GB", "TB", "PB"]

  function Pow1024(k: nat): (p: real)
    ensures p >= 1.0
  {
    if k == 0 then 1.0 else 1024.0 * Pow1024(k - 1)
  }

  /**
   * The first unit index from k on, up to `top`, at which the value drops
   * below the next power of 1024.
   */
  function UnitFrom(x: real, k: nat, top: nat): (u: nat)
    requires k <= top
    ensures k <= u <= top
    ensures u < top ==> x < Pow1024(u + 1)
    ensures forall j :: k < j <= u ==> x >= Pow1024(j)
    decreases top - k
  {
    if k == top || x < Pow1024(k + 1) then k else UnitFrom(x, k + 1, top)
  }

  /** The unit a value is shown in: the largest unit not above `top` that the value reaches. */
  function UnitIndex(x: real, top: nat): nat {
    UnitFrom(x, 0, top)
  }

  /**
   * The unit index is the one index, from k0 on, whose threshold the value
   * reaches and whose next it does not.
   */
  lemma {:induction false} UnitFromIs(x: real, k0: nat, top: nat, k: nat)
    requires k0 <= k <= top
    requires k < top ==> x < Pow1024(k + 1)
    requires forall j :: k0 < j <= k ==> x >= Pow1024(j)
    ensures UnitFrom(x, k0, top) == k
    decreases k - k0
  {
    if k0 < k {
      assert x >= Pow1024(k0 + 1);
      UnitFromIs(x, k0 + 1, top, k);
    }
  }

  /** The value shown with two decimals in the unit `top` caps it at, and the unit name. */
  function ScaledText(x: real, top: nat): string
    requires top < |SizeUnits|
  {
    var k := UnitIndex(x, top);
    Fixed2(x / Pow1024(k)) + " " + SizeUnits[k]
  }

  /** What `format_size_bytes(v)` returns: "Unknown" where `float(v)` raises, else B through PB. */
  function SizeText(v: JVal): string {
    match ToFloat(v)
    case None => "Unknown"
    case Some(x) => ScaledText(x, 5)
  }

  /** `format_size_bytes(v)`: "Unknown" where `float(v)` raises, else the scaled value and its unit. */
  method FormatSizeBytes(v: JVal) returns (s: string)
    ensures s == SizeText(v)
  {
    var parsed := ToFloat(v);
    if parsed.None? {
      return "Unknown";
    }
    s := ScaleToUnit(parsed.value);
  }

  /** The loop of `format_size_bytes`: divides by 1024 until the value fits the unit, PB at the latest. */
  method ScaleToUnit(x: real) returns (s: string)
    ensures s == ScaledText(x, 5)
  {
    var value := x;
    var units := ["B", "KB", "MB", "GB", "TB"];
    var i := 0;
    while i < |units|
      invariant 0 <= i <= |units|
      invariant value == x / Pow1024(i)
      invariant forall j :: 1 <= j <= i ==> x >= Pow1024(j)
    {
      if value < 1024.0 {
        ScaleBelow(x, Pow1024(i));
        UnitFromIs(x, 0, 5, i);
        return Fixed2(value) + " " + units[i];
      }
      ScaleStep(x, value, i);
      value := value / 1024.0;
      i := i + 1;
    }
    UnitFromIs(x, 0, 5, 5);
    return Fixed2(value) + " PB";
  }

  /** One division by 1024 moves the value one unit up. */
  lemma ScaleStep(x: real, value: real, i: nat)
    requires value == x / Pow1024(i) && value >= 1024.0
    ensures value / 1024.0 == x / Pow1024(i + 1)
    ensures x >= Pow1024(i + 1)
  {
    var p := Pow1024(i);
    assert Pow1024(i + 1) == 1024.0 * p;
    assert x == value * p;
  }

  /** A scaled value below 1024 means the count is below the next power of 1024. */
  lemma ScaleBelow(x: real, p: real)
    requires p >= 1.0 && x / p < 1024.0
    ensures x < 1024.0 * p
  {
    assert x == (x / p) * p;
  }

  /** The unit of a whole byte count is fixed by the powers of 1024 it reaches. */
  lemma SizeUnitThresholds(n: int)
    ensures n < 1024 ==> UnitIndex(n as real, 5) == 0
    ensures 1024 <= n < 1048576 ==> UnitIndex(n as real, 5) == 1
    ensures 1048576 <= n < 1073741824 ==> UnitIndex(n as real, 5) == 2
    ensures 1073741824 <= n < 1099511627776 ==> UnitIndex(n as real, 5) == 3
    ensures 1099511627776 <= n < 1125899906842624 ==> UnitIndex(n as real, 5) == 4
    ensures 1125899906842624 <= n ==> UnitIndex(n as real, 5) == 5
  {
    assert Pow1024(1) == 1024.0 && Pow1024(2) == 1048576.0 && Pow1024(3) == 1073741824.0;
    assert Pow1024(4) == 1099511627776.0 && Pow1024(5) == 1125899906842624.0;
  }

  /**
   * The examples of the test suite. The second is given there as the text
   * "1048576", which is the numeral of 1048576 and so is shown as that
   * number is (`NumeralSizeText`).
   */
  lemma SizeTextExamples()
    ensures SizeText(JInt(1024)) == "1.00 KB"
    ensures SizeText(JInt(1048576)) == "1.00 MB"
    ensures IntToString(1048576) == "1048576"
  {
    PowerText(1024, 1);
    MebibyteNumeral();
    PowerText(1048576, 2);
  }

  /** Zero bytes, the default both providers fall back on, is shown as "0.00 B". */
  lemma ZeroSizeText()
    ensures SizeText(JInt(0)) == "0.00 B"
  {
    UnitFromIs(0.0, 0, 5, 0);
    assert RoundHalfEven(0.0) == 0;
    assert NatToString(0) == "0";
    assert Fixed2(0.0) == "0.00";
  }

  /** A whole number given as its numeral is shown exactly as the number itself. */
  lemma NumeralSizeText(n: int)
    ensures SizeText(JStr(IntToString(n))) == SizeText(JInt(n))
  {
    ParseFloatOfIntToString(n);
  }

  lemma Fixed2One()
    ensures Fixed2(1.0) == "1.00"
  {
  }

  /** A count that is a power of 1024 is shown as "1.00" of its unit. */
  lemma PowerText(n: int, k: nat)
    requires 1 <= k < 5 && n as real == Pow1024(k)
    ensures SizeText(JInt(n)) == "1.00 " + SizeUnits[k]
  {
    UnitShown(n as real, k, Pow1024(k));
  }

  /** A count that is exactly the k-th power of 1024 is shown as "1.00" of the k-th unit. */
  lemma UnitShown(x: real, k: nat, p: real)
    requires 1 <= k < 5 && p == Pow1024(k) && x == p
    ensures ScaledText(x, 5) == "1.00 " + SizeUnits[k]
  {
    UnitOfPower(x, k);
    DivideBySelf(p);
    Fixed2One();
    assert ScaledText(x, 5) == Fixed2(1.0) + " " + SizeUnits[k];
    assert "1.00" + " " == "1.00 ";
  }

  lemma DivideBySelf(p: real)
    requires p >= 1.0
    ensures p / p == 1.0
  {
  }

  /** The k-th power of 1024 is shown in the k-th unit. */
  lemma UnitOfPower(x: real, k: nat)
    requires 1 <= k < 5 && x == Pow1024(k)
    ensures UnitIndex(x, 5) == k
  {
    assert x < 1024.0 * x == Pow1024(k + 1);
    forall j | 0 < j <= k ensures x >= Pow1024(j) {
      PowMonotone(j, k);
    }
    UnitFromIs(x, 0, 5, k);
  }

  lemma {:induction false} PowMonotone(j: nat, k: nat)
    requires j <= k
    ensures Pow1024(j) <= Pow1024(k)
    decreases k - j
  {
    if j < k {
      PowMonotone(j, k - 1);
    }
  }

  lemma MebibyteNumeral()
    ensures IntToString(1048576) == "1048576"
    ensures Pow1024(1) == 1024 as real && Pow1024(2) == 1048576 as real
  {
    MebibyteLeadingDigits();
    assert NatToString(104857) == "104857";
    assert NatToString(1048576) == "1048576";
  }

  lemma MebibyteLeadingDigits()
    ensures NatToString(10485) == "10485"
  {
    assert NatToString(1) == "1";
    assert NatToString(10) == "10";
    assert NatToString(104) == "104";
    assert NatToString(1048) == "1048";
  }

  // ---------------------------------------------------------------------
  // format_date_utc
  // ---------------------------------------------------------------------

  const UnknownDate: string := "Unknown Date"

  /** The date, and with `withTime` the time of day, of an instant `datetime` can represent. */
  function DateTimeText(ts: int, withTime: bool): (s: string)
    ensures s != [] && s[0] != 'U' && s[0] != 'u'
  {
    if withTime then UtcCalendar.DateText(ts) + " " + UtcCalendar.TimeText(ts) else UtcCalendar.DateText(ts)
  }

  /**
   * `format_date_utc(v, with_time)`: "Unknown Date" where `int(v)` raises
   * or the instant is outside the years 1 to 9999; otherwise the UTC date,
   * followed by the time when `withTime` is set.
   */
  function FormatDateUtc(v: JVal, withTime: bool): (s: string)
    ensures s == UnknownDate <==> ToInt(v).None? || !UtcCalendar.InRange(ToInt(v).value)
  {
    match ToInt(v)
    case None => UnknownDate
    case Some(ts) => if UtcCalendar.InRange(ts) then DateTimeText(ts, withTime) else UnknownDate
  }

  /**
   * `with_time` decides only the layout: both layouts fail together, and the
   * long one is the short one followed by a space and "HH:MM:SS".
   */
  lemma FormatDateUtcLayouts(v: JVal)
    ensures FormatDateUtc(v, true) == UnknownDate <==> FormatDateUtc(v, false) == UnknownDate
    ensures FormatDateUtc(v, true) != UnknownDate ==>
      FormatDateUtc(v, false) + " " <= FormatDateUtc(v, true)
      && |FormatDateUtc(v, true)| == |FormatDateUtc(v, false)| + 9
  {
  }

  /** The examples of the test suite, and a timestamp that is not a number. */
  lemma FormatDateUtcExamples()
    ensures FormatDateUtc(JInt(0), false) == "1970-01-01"
    ensures FormatDateUtc(JInt(0), true) == "1970-01-01 00:00:00"
    ensures FormatDateUtc(JStr("soon"), true) == UnknownDate
  {
    EpochDateTimeText(0);
    FormatInRange(JInt(0), 0, false);
    FormatInRange(JInt(0), 0, true);
    UnknownDateOfText();
  }

  lemma FormatInRange(v: JVal, ts: int, withTime: bool)
    requires v == JInt(ts) && UtcCalendar.InRange(ts)
    ensures FormatDateUtc(v, withTime) == DateTimeText(ts, withTime)
  {
  }

  lemma EpochDateTimeText(ts: int)
    requires ts == 0
    ensures DateTimeText(ts, false) == "1970-01-01"
    ensures DateTimeText(ts, true) == "1970-01-01 00:00:00"
  {
    UtcCalendar.EpochText();
  }

  lemma UnknownDateOfText()
    ensures FormatDateUtc(JStr("soon"), true) == UnknownDate
  {
    NotANumber();
  }

  lemma NotANumber()
    ensures ToInt(JStr("soon")) == None
  {
    NoDigits("soon");
  }

  lemma NoDigits(s: string)
    requires s == "soon"
    ensures ParseInt(s) == None
  {
    forall i | 0 <= i < |s| ensures !IsDigit(s[i]) {
      assert s[i] == if i == 0 then 's' else if i == 3 then 'n' else 'o';
    }
    ParseIntNeedsDigit(s);
  }

  /** The range of a 64-bit `time_t`, which `datetime.fromtimestamp` converts the integer to first. */
  const TimeTMin: int := -0x8000_0000_0000_0000
  const TimeTMax: int := 0x7FFF_FFFF_FFFF_FFFF

  /**
   * `format_date_utc` as written: an integer that does not fit `time_t`
   * raises OverflowError, which the `except (TypeError, ValueError,
   * OSError)` clause does not catch.
   */
  function FormatDateUtcAsWritten(v: JVal, withTime: bool): (r: Result<string>)
    ensures r.Err? <==> ToInt(v).Some? && !(TimeTMin <= ToInt(v).value <= TimeTMax)
    ensures r.Ok? ==> r.value == FormatDateUtc(v, withTime)
  {
    match ToInt(v)
    case None => Ok(UnknownDate)
    case Some(ts) =>
      if !(TimeTMin <= ts <= TimeTMax) then Err(OverflowError)
      else if UtcCalendar.InRange(ts) then Ok(DateTimeText(ts, withTime))
      else Ok(UnknownDate)
  }

  /** The integer timestamp 2^63, past the 64-bit time_t, escapes as OverflowError instead of giving "Unknown Date". */
  lemma FormatDateUtcOverflows()
    ensures FormatDateUtcAsWritten(JInt(0x8000_0000_0000_0000), false) == Err(OverflowError)
    ensures FormatDateUtc(JInt(0x8000_0000_0000_0000), false) == UnknownDate
  {
  }

  // ---------------------------------------------------------------------
  // format_size_bytes as written: float(int) can overflow
  // ---------------------------------------------------------------------

  /** 2^1024 - 2^970: the least integer that `float()` rounds past the largest double. */
  const FloatOverflowInt: int := 0xFFFFFFFFFFFFFC_00000000000000000000000000000000000000000000000000000000000000000000000000000000000000000000000000000000000000000000000000000000000000000000000000000000000000000000000000000000000000000000000000000000000000000000000000000000000000000000000000

  /** `float(v)` raises OverflowError: an integer whose magnitude no double reaches. */
  predicate FloatOverflows(v: JVal) {
    v.JInt? && (v.i >= FloatOverflowInt || v.i <= -FloatOverflowInt)
  }

  /**
   * `format_size_bytes` as written: OverflowError from `float()` is not in
   * the `except (TypeError, ValueError)` clause and escapes.
   */
  function FormatSizeBytesAsWritten(v: JVal): (r: Result<string>)
    ensures r.Err? <==> FloatOverflows(v)
    ensures r.Ok? ==> r.value == SizeText(v)
  {
    if FloatOverflows(v) then Err(OverflowError) else Ok(SizeText(v))
  }

  /** A byte count of 2^1024 - 2^970 raises instead of being shown in PB. */
  lemma FormatSizeBytesOverflows()
    ensures FormatSizeBytesAsWritten(JInt(FloatOverflowInt)) == Err(OverflowError)
    ensures UnitIndex(FloatOverflowInt as real, 5) == 5
  {
    assert Pow1024(5) == 1125899906842624.0;
  }

  // ---------------------------------------------------------------------
  // write_csv: the rows handed to csv.DictWriter
  // ---------------------------------------------------------------------

  /**
   * The rows `write_csv` writes and the count it returns; the header line
   * is written unless rows are appended to a file that already exists.
   */
  method WriteCsvRows(records: seq<Models.TorrentRecord>, append: bool, fileExists: bool)
    returns (header: bool, rows: seq<map<string, string>>, count: nat)
    ensures header <==> !append || !fileExists
    ensures rows == Seqs.Map(records, Models.AsDict)
    ensures count == |records|
  {
    header := !append || !fileExists;
    rows := [];
    count := 0;
    for i := 0 to |records|
      invariant count == i == |rows|
      invariant forall j :: 0 <= j < i ==> rows[j] == Models.AsDict(records[j])
    {
      rows := rows + [Models.AsDict(records[i])];
      count := count + 1;
    }
  }
}

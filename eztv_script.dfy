/**
 * The standalone EZTV script: its own resolution table, its own quality
 * test and sort key, and the filter, sort, file-name prefix and CSV rows of
 * `get_show_by_imdb` and `get_top_seeded` once the HTTP call has returned.
 */
module EztvScript {
  import opened Wrappers
  import opened Json
  import opened Payloads
  import Utils
  import Seqs
  import StableSort
  import PyText
  import EztvClient

  // ---------------------------------------------------------------------
  // get_resolution / is_high_quality
  // ---------------------------------------------------------------------

  /** Every (rank, label) pair `get_resolution` can return: no 1440p and no 480p tier. */
  const ScriptTiers: seq<(int, string)> :=
    [(4, "2160p (4K)"), (3, "1080p"), (2, "720p"), (1, "SD / Unknown")]

  /** `get_resolution(title)`: the first entry of the script's table the lowered title mentions. */
  function GetResolution(title: string): (r: (int, string))
    ensures r in ScriptTiers
  {
    var lower := PyText.Lower(title);
    if PyText.Contains(lower, "2160p") || PyText.Contains(lower, "4k") || PyText.Contains(lower, "uhd") then (4, "2160p (4K)")
    else if PyText.Contains(lower, "1080p") then (3, "1080p")
    else if PyText.Contains(lower, "720p") then (2, "720p")
    else (1, "SD / Unknown")
  }

  /** `is_high_quality(title)`: rank 3 or more, that is 4K or 1080p. */
  function IsHighQuality(title: string): (hq: bool)
    ensures hq <==> GetResolution(title).1 in {"2160p (4K)", "1080p"}
  {
    GetResolution(title).0 >= 3
  }

  /**
   * The script's table against the package's: the ranks agree except where
   * the package finds its 1440p or 480p tier, which the script lacks; the
   * 4K entries correspond; a title of quality for the script is one for
   * the package, and the only titles of quality for the package alone are
   * its 1440p ones.
   */
  lemma RanksAgainstPackage(title: string)
    ensures var (rank, shown) := GetResolution(title);
      var (packageRank, packageLabel) := Utils.ExtractResolution(title);
      (packageLabel != "1440p" && packageLabel != "480p" ==> rank == packageRank)
      && (packageLabel == "1440p" ==> rank <= 3)
      && (packageLabel == "480p" ==> rank == 1)
      && (shown == "2160p (4K)" <==> packageLabel == "2160p")
    ensures IsHighQuality(title) ==> Utils.IsHighQuality(title)
    ensures Utils.IsHighQuality(title) && !IsHighQuality(title) ==> Utils.ExtractResolution(title).1 == "1440p"
  {
    if title == "" {
      assert PyText.Lower(title) == "";
    }
  }

  /** A 1440p title is of quality for the package and of unknown resolution for the script. */
  lemma Resolution1440Contrast()
    ensures GetResolution("Show.1440p") == (1, "SD / Unknown")
    ensures Utils.ExtractResolution("Show.1440p") == (3, "1440p")
  {
    LowerOf1440Title();
    NoScriptTier("Show.1440p", '2', 'k', 'u', '8', '7');
    PackageOf1440("Show.1440p");
  }

  lemma LowerOf1440Title()
    ensures PyText.Lower("Show.1440p") == "show.1440p"
    ensures '2' !in "show.1440p" && 'k' !in "show.1440p" && 'u' !in "show.1440p"
    ensures '8' !in "show.1440p" && '7' !in "show.1440p"
  {
  }

  /**
   * A title of unknown resolution for the script: its lowered form holds
   * none of the tiers, as witnessed by a character of each tier it lacks.
   */
  lemma NoScriptTier(title: string, c2160: char, c4k: char, cUhd: char, c1080: char, c720: char)
    requires c2160 in "2160p" && c4k in "4k" && cUhd in "uhd" && c1080 in "1080p" && c720 in "720p"
    requires var l := PyText.Lower(title); c2160 !in l && c4k !in l && cUhd !in l && c1080 !in l && c720 !in l
    ensures GetResolution(title) == (1, "SD / Unknown")
  {
    var l := PyText.Lower(title);
    PyText.ContainsChars(l, "2160p", c2160);
    PyText.ContainsChars(l, "4k", c4k);
    PyText.ContainsChars(l, "uhd", cUhd);
    PyText.ContainsChars(l, "1080p", c1080);
    PyText.ContainsChars(l, "720p", c720);
  }

  lemma PackageOf1440(title: string)
    requires PyText.Lower(title) == "show.1440p"
    requires var l := PyText.Lower(title); '2' !in l && 'k' !in l && 'u' !in l
    ensures Utils.ExtractResolution(title) == (3, "1440p")
  {
    var l := PyText.Lower(title);
    PyText.ContainsChars(l, "2160p", '2');
    PyText.ContainsChars(l, "4k", 'k');
    PyText.ContainsChars(l, "uhd", 'u');
    PyText.ContainsAt(l, "1440p", 5);
  }

  /** A 480p title has rank 2 for the package and rank 1 for the script. */
  lemma Resolution480Contrast()
    ensures GetResolution("Show.480p") == (1, "SD / Unknown")
    ensures Utils.ExtractResolution("Show.480p") == (2, "480p")
  {
    LowerOf480Title();
    NoScriptTier("Show.480p", '2', 'k', 'u', '1', '7');
    PackageOf480("Show.480p");
  }

  lemma LowerOf480Title()
    ensures PyText.Lower("Show.480p") == "show.480p"
    ensures '2' !in "show.480p" && 'k' !in "show.480p" && 'u' !in "show.480p"
    ensures '1' !in "show.480p" && '7' !in "show.480p"
  {
  }

  lemma PackageOf480(title: string)
    requires PyText.Lower(title) == "show.480p"
    requires var l := PyText.Lower(title); '2' !in l && 'k' !in l && 'u' !in l && '1' !in l && '7' !in l
    ensures Utils.ExtractResolution(title) == (2, "480p")
  {
    var l := PyText.Lower(title);
    PyText.ContainsChars(l, "2160p", '2');
    PyText.ContainsChars(l, "4k", 'k');
    PyText.ContainsChars(l, "uhd", 'u');
    PyText.ContainsChars(l, "1440p", '1');
    PyText.ContainsChars(l, "1080p", '1');
    PyText.ContainsChars(l, "720p", '7');
    PyText.ContainsAt(l, "480p", 5);
  }

  // ---------------------------------------------------------------------
  // _fetch_data: the items of the decoded body
  // ---------------------------------------------------------------------

  /**
   * `_fetch_data` after decoding: `data.get("torrents")` raises
   * AttributeError when the body is no object; otherwise the items the
   * package's `_fetch` returns.
   */
  function FetchData(body: EztvBody): (r: Result<seq<EztvItem>>)
    ensures r.Err? <==> body.EztvNonObject?
    ensures r.Err? ==> r.error == AttributeError
    ensures r.Ok? ==> r.value == EztvClient.Fetch(body)
    ensures r.Ok? ==> (r.value == [] <==> body.torrents.None? || body.torrents.value == [])
  {
    match body
    case EztvNonObject => Err(AttributeError)
    case EztvObject(None) => Ok([])
    case EztvObject(Some(torrents)) => Ok(torrents)
  }

  // ---------------------------------------------------------------------
  // _sort_key_generator
  // ---------------------------------------------------------------------

  /** `int(item.get(key, 0))`, 0 where int() raises. */
  function NumberAt(item: EztvItem, key: string): int {
    IntOrZero(Get(item, key, JInt(0)))
  }

  /** `_sort_key_generator`: (season, episode, -rank of the title, -seeds). */
  function SortKey(item: EztvItem): StableSort.Key {
    [NumberAt(item, "season"), NumberAt(item, "episode"),
     -GetResolution(EztvClient.Title(item)).0, -NumberAt(item, "seeds")]
  }

  /**
   * What the key order means: season first, then episode, then the higher
   * rank of the script's table, then more seeds.
   */
  lemma SortKeyOrder(a: EztvItem, b: EztvItem)
    ensures StableSort.KeyLe(SortKey(a), SortKey(b)) <==>
      var sa, sb := NumberAt(a, "season"), NumberAt(b, "season");
      var ea, eb := NumberAt(a, "episode"), NumberAt(b, "episode");
      var ra, rb := GetResolution(EztvClient.Title(a)).0, GetResolution(EztvClient.Title(b)).0;
      sa < sb || (sa == sb && (ea < eb || (ea == eb && (ra > rb || (ra == rb && NumberAt(a, "seeds") >= NumberAt(b, "seeds"))))))
  {
    StableSort.KeyLeFour(SortKey(a), SortKey(b));
  }

  /** A missing season, episode or seeds value counts as 0. */
  lemma SortKeyDefaults(item: EztvItem)
    requires "season" !in item && "episode" !in item && "seeds" !in item
    ensures SortKey(item)[0] == 0 && SortKey(item)[1] == 0 && SortKey(item)[3] == 0
  {
  }

  // ---------------------------------------------------------------------
  // get_show_by_imdb
  // ---------------------------------------------------------------------

  /** The quality test: `is_high_quality(item.get("title", ""))`. */
  predicate HighQualityItem(item: EztvItem) {
    IsHighQuality(EztvClient.Title(item))
  }

  /** The `min_1080p` step with the script's own quality test. */
  function QualityFilter(items: seq<EztvItem>, min1080p: bool): (r: seq<EztvItem>)
    ensures |r| <= |items|
    ensures !min1080p ==> r == items
    ensures min1080p ==> forall i :: 0 <= i < |r| ==> HighQualityItem(r[i])
    ensures forall x :: multiset(r)[x] == if !min1080p || HighQualityItem(x) then multiset(items)[x] else 0
  {
    Seqs.FilterMultiplicities(items, HighQualityItem);
    if min1080p then Seqs.Filter(items, HighQualityItem) else items
  }

  /**
   * The items `get_show_by_imdb` keeps: the season filter (the same test as
   * the package's), then the script's quality filter.
   */
  function ShowItems(items: seq<EztvItem>, season: Option<int>, min1080p: bool): (r: seq<EztvItem>)
    ensures forall x ::
      multiset(r)[x] == if (season.None? || EztvClient.InSeason(season.value, x)) && (!min1080p || HighQualityItem(x))
      then multiset(items)[x] else 0
  {
    QualityFilter(EztvClient.SeasonFilter(items, season), min1080p)
  }

  /** `show_name.replace(" ", "_")`. */
  function ReplaceSpaces(s: string): (r: string)
    ensures |r| == |s| && ' ' !in r
    ensures forall i :: 0 <= i < |s| && s[i] != ' ' ==> r[i] == s[i]
  {
    seq(|s|, i requires 0 <= i < |s| => if s[i] == ' ' then '_' else s[i])
  }

  /** `f"{n:02d}"`: at least two characters, zero-padded on the left. */
  function Pad2(n: int): (s: string)
    ensures n >= 0 ==> |s| >= 2
  {
    if 0 <= n < 10 then "0" + PyText.IntToString(n) else PyText.IntToString(n)
  }

  /** The padding loses nothing: `int()` reads the padded numeral back as the number. */
  lemma Pad2RoundTrip(n: int)
    ensures PyText.ParseInt(Pad2(n)) == Some(n)
  {
    if 0 <= n < 10 {
      var d := PyText.IntToString(n);
      assert d == [PyText.DigitChar(n)];
      var s := "0" + d;
      assert s[..1] == "0" && s[1] == d[0];
      assert PyText.IsDecimal(s);
      assert PyText.DigitsValue(s[..1]) == 0 by {
        assert s[..1][..0] == [];
      }
      assert PyText.DigitsValue(s) == n;
      PyText.ParseIntOfDigits(s);
    } else {
      PyText.ParseIntOfIntToString(n);
    }
  }

  /** The season part of the prefix: "_S" and the padded season, or "_All". */
  function SeasonPart(season: Option<int>): string {
    if season.Some? then "_S" + Pad2(season.value) else "_All"
  }

  /**
   * `get_show_by_imdb` after the HTTP call: the prefix of the file name and
   * the items handed to `_save_to_csv`, sorted in place by the script's key,
   * ascending and stable.
   */
  method GetShowByImdb(body: EztvBody, showName: string, season: Option<int>, min1080p: bool)
    returns (r: Result<(string, seq<EztvItem>)>)
    ensures r.Err? <==> body.EztvNonObject?
    ensures r.Ok? ==> r.value.0 == ReplaceSpaces(showName) + SeasonPart(season) + (if min1080p then "_HQ" else "")
    ensures r.Ok? ==> StableSort.Sorted(r.value.1, SortKey)
    ensures r.Ok? ==> multiset(r.value.1) == multiset(ShowItems(EztvClient.Fetch(body), season, min1080p))
    ensures r.Ok? ==> forall k ::
      StableSort.WithKey(r.value.1, SortKey, k) == StableSort.WithKey(ShowItems(EztvClient.Fetch(body), season, min1080p), SortKey, k)
  {
    var safeName := ReplaceSpaces(showName);
    var fetched := FetchData(body);
    if fetched.Err? {
      return Err(fetched.error);
    }
    var results := fetched.value;
    var prefix;
    if season.Some? {
      results := EztvClient.SeasonFilter(results, season);
      prefix := safeName + ("_S" + Pad2(season.value));
    } else {
      prefix := safeName + "_All";
    }
    if min1080p {
      results := QualityFilter(results, true);
      prefix := prefix + "_HQ";
    }
    var kept := results;
    assert kept == ShowItems(fetched.value, season, min1080p);
    results := StableSort.SortBy(results, SortKey);
    StableSort.SortBySorted(kept, SortKey);
    StableSort.SortByStableAll(kept, SortKey);
    return Ok((prefix, results));
  }

  /** The prefix holds no space: a show name with spaces still gives one file-name word. */
  lemma ShowPrefixHasNoSpace(showName: string, season: Option<int>, min1080p: bool)
    ensures ' ' !in ReplaceSpaces(showName) + SeasonPart(season) + (if min1080p then "_HQ" else "")
  {
    if season.Some? {
      var n := season.value;
      var digits := PyText.NatToString(if n < 0 then -n else n);
      assert forall i :: 0 <= i < |digits| ==> PyText.IsDigit(digits[i]);
      assert ' ' !in digits;
    }
  }

  // ---------------------------------------------------------------------
  // get_latest
  // ---------------------------------------------------------------------

  /**
   * `get_latest` after the HTTP call: the items handed to `_save_to_csv`
   * under the prefix "latest_torrents", in the order the API sent them.
   */
  function GetLatest(body: EztvBody, min1080p: bool): (r: Result<seq<EztvItem>>)
    ensures r.Err? <==> body.EztvNonObject?
    ensures r.Ok? && !min1080p ==> r.value == EztvClient.Fetch(body)
    ensures r.Ok? ==> forall x ::
      multiset(r.value)[x] == if !min1080p || HighQualityItem(x) then multiset(EztvClient.Fetch(body))[x] else 0
  {
    match FetchData(body)
    case Err(e) => Err(e)
    case Ok(results) => Ok(QualityFilter(results, min1080p))
  }

  /** The script's stricter quality test keeps no item that the package's `get_latest` drops. */
  lemma LatestWithinPackage(body: EztvBody, min1080p: bool)
    requires body.EztvObject?
    ensures multiset(GetLatest(body, min1080p).value) <= multiset(EztvClient.QualityFilter(EztvClient.Fetch(body), min1080p))
  {
    var mine := GetLatest(body, min1080p).value;
    var theirs := EztvClient.QualityFilter(EztvClient.Fetch(body), min1080p);
    forall x | x in multiset(mine)
      ensures multiset(mine)[x] <= multiset(theirs)[x]
    {
      RanksAgainstPackage(EztvClient.Title(x));
    }
  }

  // ---------------------------------------------------------------------
  // get_top_seeded
  // ---------------------------------------------------------------------

  /**
   * The sort key of `get_top_seeded`: `int(seeds)` for an integer, a
   * boolean or a string, where a string that is no numeral raises
   * ValueError (None here); 0 for any other value.
   */
  function SeedsKey(item: EztvItem): Option<int> {
    match Get(item, "seeds", JInt(0))
    case JInt(i) => Some(i)
    case JBool(b) => Some(if b then 1 else 0)
    case JStr(s) => PyText.ParseInt(s)
    case _ => Some(0)
  }

  /** The key as a number, for items whose key does not raise. */
  function SeedsOrZero(item: EztvItem): int {
    match SeedsKey(item)
    case Some(n) => n
    case None => 0
  }

  /**
   * Where the script's key does not raise it agrees with the package's
   * `_seeders_sort`; the package reads a non-numeral string as 0 where the
   * script raises.
   */
  lemma SeedsKeyAgainstPackage(item: EztvItem)
    ensures SeedsKey(item).Some? ==> SeedsKey(item).value == EztvClient.SeedersSort(item)
    ensures SeedsKey(item).None? ==> EztvClient.SeedersSort(item) == 0
  {
  }

  /**
   * `get_top_seeded` after the HTTP call: the prefix of the file name and
   * the first `top_n` items after the in-place sort by seeds, descending and
   * stable; ValueError when a kept item's seeds string is no numeral.
   */
  method GetTopSeeded(body: EztvBody, topN: int, min1080p: bool)
    returns (r: Result<(string, seq<EztvItem>)>)
    ensures body.EztvNonObject? ==> r == Err(AttributeError)
    ensures body.EztvObject? ==>
      var kept := QualityFilter(EztvClient.Fetch(body), min1080p);
      (r.Err? <==> exists i :: 0 <= i < |kept| && SeedsKey(kept[i]).None?)
      && (r.Err? ==> r.error == ValueError)
      && (r.Ok? ==> |r.value.1| == Seqs.PrefixLength(|kept|, topN))
      && (r.Ok? ==> multiset(r.value.1) <= multiset(kept))
      && (r.Ok? ==> r.value.1 == StableSort.TopBy(kept, SeedsOrZero, topN))
    ensures r.Ok? ==> r.value.0 == "top_" + PyText.IntToString(topN) + "_seeded"
    ensures r.Ok? ==> forall i, j :: 0 <= i < j < |r.value.1| ==> SeedsOrZero(r.value.1[i]) >= SeedsOrZero(r.value.1[j])
  {
    var fetched := FetchData(body);
    if fetched.Err? {
      return Err(fetched.error);
    }
    var results := fetched.value;
    if min1080p {
      results := QualityFilter(results, true);
    }
    if exists i :: 0 <= i < |results| && SeedsKey(results[i]).None? {
      return Err(ValueError);
    }
    ghost var kept := results;
    results := StableSort.SortDescending(results, SeedsOrZero);
    var top := Seqs.Prefix(results, topN);
    assert top == StableSort.TopBy(kept, SeedsOrZero, topN);
    return Ok(("top_" + PyText.IntToString(topN) + "_seeded", top));
  }

  // ---------------------------------------------------------------------
  // _save_to_csv: the rows
  // ---------------------------------------------------------------------

  /** The header row. */
  const CsvHeader: seq<string> :=
    ["Title", "Season", "Episode", "Resolution", "Size", "Seeds", "Peers", "ReleaseDate", "MagnetLink"]

  /** `item.get("title", "Unknown Title")`. */
  function RowTitle(item: EztvItem): string {
    Text(item, "title", "Unknown Title")
  }

  /**
   * The nine cells of a row, in header order, given the size and date
   * texts: the resolution column is the script's label for the title column.
   */
  function Cells(item: EztvItem, size: string, date: string): (r: seq<string>)
    ensures |r| == |CsvHeader|
    ensures r[0] == RowTitle(item) && r[3] == GetResolution(r[0]).1 && r[4] == size && r[7] == date
  {
    var title := RowTitle(item);
    [title, CsvCell(Get(item, "season", JStr("N/A"))), CsvCell(Get(item, "episode", JStr("N/A"))),
     GetResolution(title).1, size, CsvCell(Get(item, "seeds", JInt(0))), CsvCell(Get(item, "peers", JInt(0))),
     date, CsvCell(Get(item, "magnet_url", JStr("N/A")))]
  }

  /**
   * One row as `csv.writer` writes it: the nine columns in header order;
   * the OverflowError `format_file_size` or `format_date` raise for an
   * out-of-range number instead of a row.
   */
  function Row(item: EztvItem): (r: Result<seq<string>>)
    ensures r.Err? <==>
      Utils.FloatOverflows(Get(item, "size_bytes", JInt(0)))
      || Utils.FormatDateUtcAsWritten(Get(item, "date_released_unix", JInt(0)), true).Err?
    ensures r.Ok? ==> r.value == Cells(item,
      Utils.SizeText(Get(item, "size_bytes", JInt(0))),
      Utils.FormatDateUtc(Get(item, "date_released_unix", JInt(0)), true))
  {
    var size := Utils.FormatSizeBytesAsWritten(Get(item, "size_bytes", JInt(0)));
    var date := Utils.FormatDateUtcAsWritten(Get(item, "date_released_unix", JInt(0)), true);
    if size.Err? then Err(size.error)
    else if date.Err? then Err(date.error)
    else Ok(Cells(item, size.value, date.value))
  }

  /**
   * The defaults of a row: a missing title reads "Unknown Title" of unknown
   * resolution, a missing season, episode or magnet "N/A", missing seeds
   * or peers "0", a missing size zero bytes and a missing release date the
   * epoch.
   */
  lemma RowDefaults(item: EztvItem)
    requires "title" !in item && "season" !in item && "episode" !in item && "magnet_url" !in item
    requires "seeds" !in item && "peers" !in item && "size_bytes" !in item && "date_released_unix" !in item
    ensures Row(item) == Ok(["Unknown Title", "N/A", "N/A", "SD / Unknown", "0.00 B", "0", "0",
                             "1970-01-01 00:00:00", "N/A"])
  {
    DefaultTexts();
    DefaultCells(item, "0.00 B", "1970-01-01 00:00:00");
  }

  /** Zero bytes and the epoch, as a row shows them. */
  lemma DefaultTexts()
    ensures Utils.SizeText(JInt(0)) == "0.00 B"
    ensures !Utils.FloatOverflows(JInt(0))
    ensures Utils.FormatDateUtcAsWritten(JInt(0), true) == Ok("1970-01-01 00:00:00")
  {
    Utils.ZeroSizeText();
    Utils.EpochDateTimeText(0);
    Utils.FormatInRange(JInt(0), 0, true);
  }

  lemma DefaultCells(item: EztvItem, size: string, date: string)
    requires "title" !in item && "season" !in item && "episode" !in item && "magnet_url" !in item
    requires "seeds" !in item && "peers" !in item
    ensures Cells(item, size, date) == ["Unknown Title", "N/A", "N/A", "SD / Unknown", size, "0", "0", date, "N/A"]
  {
    UnknownTitleResolution(RowTitle(item));
    assert PyText.IntToString(0) == "0";
  }

  lemma UnknownTitleResolution(t: string)
    requires t == "Unknown Title"
    ensures GetResolution(t) == (1, "SD / Unknown")
  {
    LowerOfUnknownTitle();
    NoScriptTier(t, 'p', '4', 'h', 'p', 'p');
  }

  lemma LowerOfUnknownTitle()
    ensures PyText.Lower("Unknown Title") == "unknown title"
    ensures '4' !in "unknown title" && 'h' !in "unknown title" && 'p' !in "unknown title"
  {
  }

  /**
   * The rows `_save_to_csv` writes when `rowOf` gives each item's row: one
   * per item, in order, up to the first item whose row raises.
   */
  function RowsWritten(items: seq<EztvItem>, rowOf: EztvItem -> Result<seq<string>>): (rows: seq<seq<string>>)
    ensures |rows| <= |items|
  {
    if items == [] then []
    else match rowOf(items[0])
      case Err(_) => []
      case Ok(row) => [row] + RowsWritten(items[1..], rowOf)
  }

  /** The rows written are exactly the rows of the leading items, and the next item's row raises. */
  lemma {:induction false} RowsWrittenPrefix(items: seq<EztvItem>, rowOf: EztvItem -> Result<seq<string>>)
    ensures forall j :: 0 <= j < |RowsWritten(items, rowOf)| ==> rowOf(items[j]) == Ok(RowsWritten(items, rowOf)[j])
    ensures |RowsWritten(items, rowOf)| < |items| ==> rowOf(items[|RowsWritten(items, rowOf)|]).Err?
  {
    if items != [] && rowOf(items[0]).Ok? {
      var rest := items[1..];
      RowsWrittenPrefix(rest, rowOf);
      var rows := RowsWritten(items, rowOf);
      assert rows == [rowOf(items[0]).value] + RowsWritten(rest, rowOf);
      forall j | 0 <= j < |rows|
        ensures rowOf(items[j]) == Ok(rows[j])
      {
        if j > 0 {
          assert items[j] == rest[j - 1];
        }
      }
      if |rows| < |items| {
        assert items[|rows|] == rest[|rows| - 1];
      }
    }
  }

  /**
   * `_save_to_csv`'s loop, the row of an item given by `rowOf`: nothing
   * for no items; otherwise the header, then one row per item until the
   * first item whose row raises, which the `except Exception` clause turns
   * into a failed save with the rows so far in the file. `saved` is the
   * count reported on success.
   */
  method WriteRows(items: seq<EztvItem>, rowOf: EztvItem -> Result<seq<string>>)
    returns (header: Option<seq<string>>, rows: seq<seq<string>>, saved: Option<nat>)
    ensures header.Some? <==> items != []
    ensures header.Some? ==> header.value == CsvHeader
    ensures rows == RowsWritten(items, rowOf)
    ensures saved.Some? <==> items != [] && |rows| == |items|
    ensures saved.Some? ==> saved.value == |items|
  {
    header, rows, saved := None, [], None;
    if items == [] {
      return;
    }
    header := Some(CsvHeader);
    var count := 0;
    for i := 0 to |items|
      invariant count == i == |rows|
      invariant RowsWritten(items, rowOf) == rows + RowsWritten(items[i..], rowOf)
    {
      var row := rowOf(items[i]);
      assert items[i..][1..] == items[i + 1..];
      if row.Err? {
        return;
      }
      rows := rows + [row.value];
      count := count + 1;
    }
    assert items[|items|..] == [];
    saved := Some(count);
  }

  /** `_save_to_csv`: the loop above with the script's rows. */
  method SaveToCsv(items: seq<EztvItem>) returns (header: Option<seq<string>>, rows: seq<seq<string>>, saved: Option<nat>)
    ensures header.Some? <==> items != []
    ensures header.Some? ==> header.value == CsvHeader
    ensures |rows| <= |items|
    ensures forall j :: 0 <= j < |rows| ==> Row(items[j]) == Ok(rows[j])
    ensures |rows| < |items| ==> Row(items[|rows|]).Err?
    ensures saved.Some? <==> items != [] && |rows| == |items|
    ensures saved.Some? ==> saved.value == |items|
  {
    header, rows, saved := WriteRows(items, Row);
    RowsWrittenPrefix(items, Row);
  }
}

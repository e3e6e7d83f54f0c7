/**
 * The standalone TPB script: its own resolution scan, size and timestamp
 * texts, the dictionary `_transform_item` builds for a raw item, and the
 * rows `save_results_to_csv` writes, sorted by seeders. Its `_search` is
 * the same code as the package's `search` and is modelled by
 * `TpbClient.Search`.
 */
module TpbScript {
  import opened Wrappers
  import opened Json
  import opened Payloads
  import Utils
  import Seqs
  import StableSort
  import PyText
  import UtcCalendar
  import TpbClient
  import Models

  // ---------------------------------------------------------------------
  // _extract_resolution
  // ---------------------------------------------------------------------

  /** The patterns `_extract_resolution` tries, most specific first. */
  const ScriptResolutions: seq<string> := ["2160p", "2160", "4k", "1440p", "1080p", "720p", "480p"]

  /** The `for res in ...: if res in lower` loop: the first pattern the text mentions. */
  function FirstMentioned(lower: string, patterns: seq<string>): (r: Option<string>)
    ensures r.Some? ==> r.value in patterns && PyText.Contains(lower, r.value)
    ensures r.None? <==> forall i :: 0 <= i < |patterns| ==> !PyText.Contains(lower, patterns[i])
  {
    if patterns == [] then None
    else if PyText.Contains(lower, patterns[0]) then Some(patterns[0])
    else FirstMentioned(lower, patterns[1..])
  }

  /** The pattern found is the first one mentioned: none before it is. */
  lemma {:induction false} FirstMentionedIsFirst(lower: string, patterns: seq<string>)
    requires FirstMentioned(lower, patterns).Some?
    ensures exists i ::
        0 <= i < |patterns| && patterns[i] == FirstMentioned(lower, patterns).value
        && forall j :: 0 <= j < i ==> !PyText.Contains(lower, patterns[j])
  {
    var r := FirstMentioned(lower, patterns).value;
    if PyText.Contains(lower, patterns[0]) {
      assert patterns[0] == r;
    } else {
      var rest := patterns[1..];
      FirstMentionedIsFirst(lower, rest);
      var i :| 0 <= i < |rest| && rest[i] == r && forall j :: 0 <= j < i ==> !PyText.Contains(lower, rest[j]);
      assert patterns[i + 1] == r;
      forall j | 0 <= j < i + 1 ensures !PyText.Contains(lower, patterns[j]) {
        if j > 0 {
          assert patterns[j] == rest[j - 1];
        }
      }
    }
  }

  /**
   * `_extract_resolution(name)`: "" for an empty name or one that mentions
   * no pattern; the first pattern mentioned otherwise, where a bare "2160"
   * and "4k" are reported as "2160p".
   */
  function ExtractResolution(name: string): (r: string)
    ensures r in {"", "2160p", "1440p", "1080p", "720p", "480p"}
  {
    if name == "" then ""
    else match FirstMentioned(PyText.Lower(name), ScriptResolutions)
      case None => ""
      case Some(res) => if res in ["2160", "4k"] then "2160p" else res
  }

  /**
   * The loop spelled out: the first of "2160p", "2160" and "4k" gives
   * "2160p", then 1440p, 1080p, 720p and 480p in that order, else "".
   */
  lemma ExtractResolutionChain(name: string)
    requires name != ""
    ensures var l := PyText.Lower(name);
      ExtractResolution(name) ==
        if PyText.Contains(l, "2160p") || PyText.Contains(l, "2160") || PyText.Contains(l, "4k") then "2160p"
        else if PyText.Contains(l, "1440p") then "1440p"
        else if PyText.Contains(l, "1080p") then "1080p"
        else if PyText.Contains(l, "720p") then "720p"
        else if PyText.Contains(l, "480p") then "480p"
        else ""
  {
    var l := PyText.Lower(name);
    var rs := ScriptResolutions;
    ScanChain(l);
    if PyText.Contains(l, "2160p") {
      NoAlias(rs[0]);
    } else if !PyText.Contains(l, "2160") && !PyText.Contains(l, "4k") {
      NoAlias(rs[3]);
      NoAlias(rs[4]);
      NoAlias(rs[5]);
      NoAlias(rs[6]);
    }
  }

  /** The scan over the patterns, turn by turn. */
  lemma ScanChain(l: string)
    ensures var rs := ScriptResolutions;
      FirstMentioned(l, rs) ==
        if PyText.Contains(l, rs[0]) then Some(rs[0])
        else if PyText.Contains(l, rs[1]) then Some(rs[1])
        else if PyText.Contains(l, rs[2]) then Some(rs[2])
        else if PyText.Contains(l, rs[3]) then Some(rs[3])
        else if PyText.Contains(l, rs[4]) then Some(rs[4])
        else if PyText.Contains(l, rs[5]) then Some(rs[5])
        else if PyText.Contains(l, rs[6]) then Some(rs[6])
        else None
  {
    ScanSeven(l, ScriptResolutions);
  }

  lemma ScanSeven(l: string, ps: seq<string>)
    requires |ps| == 7
    ensures FirstMentioned(l, ps) ==
        if PyText.Contains(l, ps[0]) then Some(ps[0])
        else if PyText.Contains(l, ps[1]) then Some(ps[1])
        else if PyText.Contains(l, ps[2]) then Some(ps[2])
        else if PyText.Contains(l, ps[3]) then Some(ps[3])
        else if PyText.Contains(l, ps[4]) then Some(ps[4])
        else if PyText.Contains(l, ps[5]) then Some(ps[5])
        else if PyText.Contains(l, ps[6]) then Some(ps[6])
        else None
  {
    assert ps[0..] == ps;
    FirstMentionedAt(l, ps, 0);
    FirstMentionedAt(l, ps, 1);
    FirstMentionedAt(l, ps, 2);
    FirstMentionedAt(l, ps, 3);
    FirstMentionedAt(l, ps, 4);
    FirstMentionedAt(l, ps, 5);
    FirstMentionedAt(l, ps, 6);
    assert ps[7..] == [];
  }

  /** A pattern ending in 'p' is reported as it is. */
  lemma NoAlias(res: string)
    requires res != [] && res[|res| - 1] == 'p'
    ensures res !in ["2160", "4k"]
  {
    assert "2160"[3] == '0' && "4k"[1] == 'k';
  }

  /** One turn of the loop, at the k-th pattern. */
  lemma FirstMentionedAt(lower: string, patterns: seq<string>, k: nat)
    requires k < |patterns|
    ensures FirstMentioned(lower, patterns[k..]) ==
      if PyText.Contains(lower, patterns[k]) then Some(patterns[k]) else FirstMentioned(lower, patterns[k + 1..])
  {
    assert patterns[k..][1..] == patterns[k + 1..];
  }

  /**
   * The script's label against the package's `extract_resolution`: they
   * agree unless one of them reports 2160p, and then they differ only
   * because the script also takes a bare "2160" and the package also takes
   * "uhd".
   */
  lemma ResolutionAgainstPackage(name: string)
    ensures var s, p := ExtractResolution(name), Utils.ExtractResolution(name).1;
      (s != "2160p" && p != "2160p" ==> s == p)
      && (s == "2160p" && p != "2160p" ==> PyText.Contains(PyText.Lower(name), "2160"))
      && (p == "2160p" && s != "2160p" ==> PyText.Contains(PyText.Lower(name), "uhd"))
  {
    if name != "" {
      ExtractResolutionChain(name);
    }
  }

  /** "UHD" is 2160p for the package and no resolution for the script. */
  lemma UhdContrast()
    ensures ExtractResolution("Movie.UHD") == ""
    ensures Utils.ExtractResolution("Movie.UHD").1 == "2160p"
  {
    LowerOfUhdTitle();
    UhdTitle("Movie.UHD");
  }

  lemma LowerOfUhdTitle()
    ensures PyText.Lower("Movie.UHD") == "movie.uhd"
    ensures '2' !in "movie.uhd" && '4' !in "movie.uhd" && 'p' !in "movie.uhd"
    ensures PyText.Contains("movie.uhd", "uhd")
  {
    PyText.ContainsAt("movie.uhd", "uhd", 6);
  }

  lemma UhdTitle(name: string)
    requires PyText.Lower(name) == "movie.uhd"
    requires var l := PyText.Lower(name); '2' !in l && '4' !in l && 'p' !in l && PyText.Contains(l, "uhd")
    ensures ExtractResolution(name) == ""
    ensures Utils.ExtractResolution(name).1 == "2160p"
  {
    var l := PyText.Lower(name);
    assert |name| == |l|;
    ExtractResolutionChain(name);
    PyText.ContainsChars(l, "2160p", '2');
    PyText.ContainsChars(l, "2160", '2');
    PyText.ContainsChars(l, "4k", '4');
    PyText.ContainsChars(l, "1440p", 'p');
    PyText.ContainsChars(l, "1080p", 'p');
    PyText.ContainsChars(l, "720p", 'p');
    PyText.ContainsChars(l, "480p", 'p');
  }

  /** A bare "2160" is 2160p for the script and no resolution for the package. */
  lemma BareUhdNumberContrast()
    ensures ExtractResolution("Movie.2160") == "2160p"
    ensures Utils.ExtractResolution("Movie.2160").1 == ""
  {
    LowerOfBareTitle();
    BareTitle("Movie.2160");
  }

  lemma LowerOfBareTitle()
    ensures PyText.Lower("Movie.2160") == "movie.2160"
    ensures 'p' !in "movie.2160" && 'k' !in "movie.2160" && 'u' !in "movie.2160"
    ensures PyText.Contains("movie.2160", "2160")
  {
    PyText.ContainsAt("movie.2160", "2160", 6);
  }

  lemma BareTitle(name: string)
    requires PyText.Lower(name) == "movie.2160"
    requires var l := PyText.Lower(name); 'p' !in l && 'k' !in l && 'u' !in l && PyText.Contains(l, "2160")
    ensures ExtractResolution(name) == "2160p"
    ensures Utils.ExtractResolution(name).1 == ""
  {
    var l := PyText.Lower(name);
    assert |name| == |l|;
    ExtractResolutionChain(name);
    PyText.ContainsChars(l, "2160p", 'p');
    PyText.ContainsChars(l, "4k", 'k');
    PyText.ContainsChars(l, "uhd", 'u');
    PyText.ContainsChars(l, "1440p", 'p');
    PyText.ContainsChars(l, "1080p", 'p');
    PyText.ContainsChars(l, "720p", 'p');
    PyText.ContainsChars(l, "480p", 'p');
  }

  // ---------------------------------------------------------------------
  // _human_size
  // ---------------------------------------------------------------------

  /**
   * What `_human_size(v)` returns: "unknown" where `int(v)` raises, else the
   * count scaled to the largest unit up to TB that it reaches.
   */
  function HumanSizeText(v: JVal): (s: string)
    ensures s == "unknown" <==> ToInt(v).None?
  {
    match ToInt(v)
    case None => "unknown"
    case Some(n) =>
      var t := Utils.ScaledText(n as real, 4);
      var f := PyText.Fixed2(n as real / Utils.Pow1024(Utils.UnitIndex(n as real, 4)));
      assert t[|f|] == ' ';
      t
  }

  /** `_human_size(v)`: divide by 1024 while the value reaches 1024 and a larger unit is left. */
  method HumanSize(v: JVal) returns (s: string)
    ensures s == HumanSizeText(v)
  {
    var parsed := ToInt(v);
    if parsed.None? {
      return "unknown";
    }
    var x := parsed.value as real;
    var size := x;
    var units := ["B", "KB", "MB", "GB", "TB"];
    var i := 0;
    while size >= 1024.0 && i < |units| - 1
      invariant 0 <= i < |units|
      invariant size == x / Utils.Pow1024(i)
      invariant forall j :: 1 <= j <= i ==> x >= Utils.Pow1024(j)
    {
      Utils.ScaleStep(x, size, i);
      size := size / 1024.0;
      i := i + 1;
    }
    if i < |units| - 1 {
      Utils.ScaleBelow(x, Utils.Pow1024(i));
    }
    Utils.UnitFromIs(x, 0, 4, i);
    s := PyText.Fixed2(size) + " " + units[i];
  }

  /**
   * The script's size text against the package's: an integer count below
   * 1024^5 bytes reads the same; from 1024^5 on the script stays in TB
   * where the package moves to PB.
   */
  lemma HumanSizeAgainstPackage(n: int)
    ensures (n as real) < Utils.Pow1024(5) ==> HumanSizeText(JInt(n)) == Utils.SizeText(JInt(n))
    ensures (n as real) >= Utils.Pow1024(5) ==>
      Utils.UnitIndex(n as real, 4) == 4 && Utils.UnitIndex(n as real, 5) == 5
  {
    var x := n as real;
    var u := Utils.UnitIndex(x, 5);
    if x < Utils.Pow1024(5) {
      assert u < 5;
      Utils.UnitFromIs(x, 0, 4, u);
    } else {
      forall j | 0 < j <= 5 ensures x >= Utils.Pow1024(j) {
        Utils.PowMonotone(j, 5);
      }
      Utils.UnitFromIs(x, 0, 4, 4);
      Utils.UnitFromIs(x, 0, 5, 5);
    }
  }

  /** A missing size falls back on "0", shown as zero bytes. */
  lemma MissingSize()
    ensures HumanSizeText(JStr("0")) == "0.00 B"
  {
    assert PyText.IsDecimal("0");
    PyText.ParseIntOfDigits("0");
    assert PyText.DigitsValue("0") == 0;
    Utils.UnitFromIs(0.0, 0, 4, 0);
    assert PyText.RoundHalfEven(0.0) == 0;
    assert PyText.NatToString(0) == "0";
    assert PyText.Fixed2(0.0) == "0.00";
  }

  /**
   * `_human_size` as written: `size /= 1024.0` (or, for a large negative
   * count, the `.2f` format) converts the integer to a float, which raises
   * OverflowError past the largest double; the `except (TypeError,
   * ValueError)` clause only guards `int()`.
   */
  function HumanSizeAsWritten(v: JVal): (r: Result<string>)
    ensures r.Err? <==> ToInt(v).Some? && Utils.FloatOverflows(JInt(ToInt(v).value))
    ensures r.Err? ==> r.error == OverflowError
    ensures r.Ok? ==> r.value == HumanSizeText(v)
  {
    match ToInt(v)
    case Some(n) => if Utils.FloatOverflows(JInt(n)) then Err(OverflowError) else Ok(HumanSizeText(v))
    case None => Ok("unknown")
  }

  /** A count of 2^1024 - 2^970 bytes raises where the corrected text shows it in TB. */
  lemma HumanSizeOverflows()
    ensures HumanSizeAsWritten(JInt(Utils.FloatOverflowInt)) == Err(OverflowError)
    ensures HumanSizeText(JInt(Utils.FloatOverflowInt)) != "unknown"
  {
  }

  // ---------------------------------------------------------------------
  // _format_timestamp
  // ---------------------------------------------------------------------

  /**
   * What `_format_timestamp(v)` returns: "unknown" where `int(v)` raises or
   * the instant is outside the years 1 to 9999, else the UTC date.
   */
  function FormatTimestamp(v: JVal): (s: string)
    ensures s == "unknown" <==> ToInt(v).None? || !UtcCalendar.InRange(ToInt(v).value)
  {
    match ToInt(v)
    case None => "unknown"
    case Some(ts) => if UtcCalendar.InRange(ts) then UtcCalendar.DateText(ts) else "unknown"
  }

  /** The script shows the package's date without the time, with "unknown" for "Unknown Date". */
  lemma TimestampAgainstPackage(v: JVal)
    ensures FormatTimestamp(v) ==
      if Utils.FormatDateUtc(v, false) == Utils.UnknownDate then "unknown" else Utils.FormatDateUtc(v, false)
  {
  }

  /**
   * `_format_timestamp` as written: an integer outside `time_t` makes
   * `fromtimestamp` raise OverflowError, which the `except (TypeError,
   * ValueError, OSError)` clause does not catch.
   */
  function FormatTimestampAsWritten(v: JVal): (r: Result<string>)
    ensures r.Err? <==> ToInt(v).Some? && !(Utils.TimeTMin <= ToInt(v).value <= Utils.TimeTMax)
    ensures r.Err? ==> r.error == OverflowError
    ensures r.Ok? ==> r.value == FormatTimestamp(v)
  {
    match ToInt(v)
    case Some(ts) => if !(Utils.TimeTMin <= ts <= Utils.TimeTMax) then Err(OverflowError) else Ok(FormatTimestamp(v))
    case None => Ok("unknown")
  }

  /** The timestamp 2^63 raises where the corrected text reads "unknown". */
  lemma TimestampOverflows()
    ensures FormatTimestampAsWritten(JInt(0x8000_0000_0000_0000)) == Err(OverflowError)
    ensures FormatTimestamp(JInt(0x8000_0000_0000_0000)) == "unknown"
  {
  }

  // ---------------------------------------------------------------------
  // _seeders_as_int / _transform_item
  // ---------------------------------------------------------------------

  /** `_seeders_as_int`: `int(item.get("seeders", 0))`, 0 where int() raises. */
  function SeedersAsInt(item: TpbItem): int {
    IntOrZero(Get(item, "seeders", JInt(0)))
  }

  /** The CSV columns, in order. */
  const Columns: seq<string> :=
    ["Title", "Year", "Resolution", "Seeders", "Leechers", "Size", "UploadedDate", "Uploader", "ID", "MagnetLink"]

  /** The script's columns are a prefix of the package's. */
  lemma ColumnsArePackagePrefix()
    ensures Columns <= Models.CsvHeaders
  {
  }

  /**
   * The dictionary `_transform_item` returns, one field per column; the
   * seeders, leechers, uploader and id values are the raw JSON values.
   */
  datatype Row = Row(
    Title: string, Year: string, Resolution: string, Seeders: JVal, Leechers: JVal,
    Size: string, UploadedDate: string, Uploader: JVal, ID: JVal, MagnetLink: string)

  /**
   * `_transform_item`: the ten columns, with "" for a missing seeders,
   * leechers, uploader or id; year and magnet link are built by the same
   * code as the package's `extract_year` and `build_magnet_link`.
   */
  function TransformItem(item: TpbItem): Row {
    var name := TpbClient.Name(item);
    Row(
      Title := name,
      Year := Utils.ExtractYear(name),
      Resolution := ExtractResolution(name),
      Seeders := Get(item, "seeders", JStr("")),
      Leechers := Get(item, "leechers", JStr("")),
      Size := HumanSizeText(Get(item, "size", JStr("0"))),
      UploadedDate := FormatTimestamp(Get(item, "added", JStr(""))),
      Uploader := Get(item, "username", JStr("")),
      ID := Get(item, "id", JStr("")),
      MagnetLink := Utils.BuildMagnetLink(TpbClient.InfoHash(item), name))
  }

  /** The value at `key` is not JSON null. */
  predicate NotNull(item: TpbItem, key: string) {
    !(key in item && item[key].JNull?)
  }

  /** Title, year and magnet link of the row are those of the package's record for the same item. */
  lemma TransformAgreesOnName(item: TpbItem)
    ensures var row, rec := TransformItem(item), TpbClient.NormalizeItem(item);
      row.Title == rec.Title && row.Year == rec.Year && row.MagnetLink == rec.MagnetLink
  {
  }

  /**
   * The seeders, leechers, uploader and id cells read as the record's
   * fields, except for a null value (an empty cell, shown as "None" by the
   * record).
   */
  lemma TransformAgreesOnRaw(item: TpbItem)
    ensures var row, rec := TransformItem(item), TpbClient.NormalizeItem(item);
      (NotNull(item, "seeders") ==> CsvCell(row.Seeders) == rec.Seeders)
      && (NotNull(item, "leechers") ==> CsvCell(row.Leechers) == rec.Leechers)
      && (NotNull(item, "username") ==> CsvCell(row.Uploader) == rec.Uploader)
      && (NotNull(item, "id") ==> CsvCell(row.ID) == rec.ID)
  {
    RawCell(item, "seeders");
    RawCell(item, "leechers");
    RawCell(item, "username");
    RawCell(item, "id");
  }

  /** A raw value is written as its text, and a missing one as the empty default. */
  lemma RawCell(item: TpbItem, key: string)
    ensures NotNull(item, key) ==> CsvCell(Get(item, key, JStr(""))) == GetStr(item, key)
  {
  }

  /** The date cell is the record's date, with "unknown" for "Unknown Date". */
  lemma TransformAgreesOnDate(item: TpbItem)
    ensures var row, rec := TransformItem(item), TpbClient.NormalizeItem(item);
      row.UploadedDate == if rec.UploadedDate == Utils.UnknownDate then "unknown" else rec.UploadedDate
  {
    TimestampAgainstPackage(Get(item, "added", JStr("")));
  }

  /** The number the seeders column of a row reads as. */
  function RowSeeders(row: Row): int {
    IntOrZero(row.Seeders)
  }

  /** The seeders column of a row reads as the item's sort key. */
  lemma RowSeedersOfTransform(item: TpbItem)
    ensures RowSeeders(TransformItem(item)) == SeedersAsInt(item)
  {
    if "seeders" !in item {
      PyText.ParseIntNeedsDigit("");
    }
  }

  // ---------------------------------------------------------------------
  // save_results_to_csv
  // ---------------------------------------------------------------------

  /** Sorting the items by their key and then transforming them is sorting the rows by their seeders column. */
  lemma SortThenTransform(items: seq<TpbItem>)
    ensures Seqs.Map(StableSort.SortDescending(items, SeedersAsInt), TransformItem)
      == StableSort.SortDescending(Seqs.Map(items, TransformItem), RowSeeders)
  {
    var key, key' := StableSort.Negated(SeedersAsInt), StableSort.Negated(RowSeeders);
    forall x ensures key'(TransformItem(x)) == key(x) {
      RowSeedersOfTransform(x);
    }
    StableSort.SortByMap(items, TransformItem, key, key');
  }

  /**
   * `save_results_to_csv` before the file is written: no rows for no items;
   * AttributeError from `item.get` when an entry is no object; otherwise one
   * row per item, the rows being the transformed items sorted stably by
   * their seeders column, descending.
   */
  function SaveResults(items: seq<Entry>): (r: Result<seq<Row>>)
    ensures r.Err? <==> exists i :: 0 <= i < |items| && !items[i].EntryObject?
    ensures r.Err? ==> r.error == AttributeError
    ensures r.Ok? ==> |r.value| == |items|
    ensures r.Ok? ==> forall i, j :: 0 <= i < j < |r.value| ==> RowSeeders(r.value[i]) >= RowSeeders(r.value[j])
    ensures r.Ok? ==>
      r.value == StableSort.SortDescending(Seqs.Map(TpbClient.Objects(items).value, TransformItem), RowSeeders)
  {
    match TpbClient.Objects(items)
    case None => Err(AttributeError)
    case Some(raw) =>
      SortThenTransform(raw);
      Ok(Seqs.Map(StableSort.SortDescending(raw, SeedersAsInt), TransformItem))
  }

  /** The rows are the transformed items, each once: nothing is lost or duplicated by the sort. */
  lemma SaveResultsPermutes(items: seq<Entry>)
    requires SaveResults(items).Ok?
    ensures multiset(SaveResults(items).value) == multiset(Seqs.Map(TpbClient.Objects(items).value, TransformItem))
  {
  }
}

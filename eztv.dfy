/**
 * The package's EZTV client once the HTTP call has returned: the decoded
 * body is reduced to its list of items, filtered by season and by quality,
 * ranked by seeds, and every surviving item is normalised into a
 * `TorrentRecord`.
 */
module EztvClient {
  import opened Wrappers
  import opened Json
  import opened Payloads
  import Models
  import Utils
  import Seqs
  import StableSort
  import PyText

  // ---------------------------------------------------------------------
  // _fetch: the items of the decoded body
  // ---------------------------------------------------------------------

  /**
   * `_fetch` after decoding: the "torrents" list of an object body; [] when
   * the body is no object or the list is missing, null or empty.
   */
  function Fetch(body: EztvBody): (items: seq<EztvItem>)
    ensures items == [] <==> body.EztvNonObject? || body.torrents.None? || body.torrents.value == []
    ensures items != [] ==> body.EztvObject? && items == body.torrents.value
  {
    match body
    case EztvObject(Some(torrents)) => torrents
    case _ => []
  }

  // ---------------------------------------------------------------------
  // The filters of get_latest, get_show_by_imdb and get_top_seeded
  // ---------------------------------------------------------------------

  /** `item.get("title", "")`. */
  function Title(item: EztvItem): string {
    Text(item, "title", "")
  }

  /** The quality test: `is_high_quality(item.get("title", ""))`. */
  predicate HighQualityItem(item: EztvItem) {
    Utils.IsHighQuality(Title(item))
  }

  /** The season test: `str(item.get("season")) == str(season)`. */
  predicate InSeason(season: int, item: EztvItem) {
    Str(Get(item, "season", JNull)) == PyText.IntToString(season)
  }

  /** The season test as the filter applies it. */
  function SeasonTest(season: int): EztvItem -> bool {
    (item: EztvItem) => InSeason(season, item)
  }

  /**
   * The `min_1080p` step: with the flag set, the high-quality items, each
   * as often as it occurs, in their order; with the flag off, every item.
   */
  function QualityFilter(items: seq<EztvItem>, min1080p: bool): (r: seq<EztvItem>)
    ensures |r| <= |items|
    ensures !min1080p ==> r == items
    ensures min1080p ==> forall i :: 0 <= i < |r| ==> HighQualityItem(r[i])
    ensures forall x :: multiset(r)[x] == if !min1080p || HighQualityItem(x) then multiset(items)[x] else 0
  {
    Seqs.FilterMultiplicities(items, HighQualityItem);
    if min1080p then Seqs.Filter(items, HighQualityItem) else items
  }

  /** The `season` step: with a season given, the items of that season in their order. */
  function SeasonFilter(items: seq<EztvItem>, season: Option<int>): (r: seq<EztvItem>)
    ensures |r| <= |items|
    ensures season.None? ==> r == items
    ensures season.Some? ==> forall i :: 0 <= i < |r| ==> InSeason(season.value, r[i])
    ensures forall x :: multiset(r)[x] == if season.None? || InSeason(season.value, x) then multiset(items)[x] else 0
  {
    match season
    case None => items
    case Some(n) =>
      Seqs.FilterMultiplicities(items, SeasonTest(n));
      Seqs.Filter(items, SeasonTest(n))
  }

  /** The numeral of an integer is never the text "None" of a missing season. */
  lemma IntToStringNotNone(n: int)
    ensures PyText.IntToString(n) != "None"
  {
    var s := PyText.IntToString(n);
    assert s[0] == '-' || PyText.IsDigit(s[0]);
    assert "None"[0] == 'N';
  }

  /** An item that passes the season test has a "season" key, and its record shows that season. */
  lemma SeasonShown(n: int, item: EztvItem)
    requires InSeason(n, item)
    ensures "season" in item
    ensures NormalizeItem(item).Season == PyText.IntToString(n)
  {
    IntToStringNotNone(n);
  }

  // ---------------------------------------------------------------------
  // _normalize_item
  // ---------------------------------------------------------------------

  /**
   * `_normalize_item`: the source is "eztv", the fields EZTV has no data
   * for stay empty, the resolution label is read off the title, and a
   * missing key gives "".
   */
  function NormalizeItem(item: EztvItem): (r: Models.TorrentRecord)
    ensures r.Source == "eztv"
    ensures r.Year == "" && r.Leechers == "" && r.UploadedDate == "" && r.Uploader == "" && r.ID == ""
    ensures r.Title == Title(item) && r.Resolution == Utils.ExtractResolution(r.Title).1
    ensures Utils.IsHighQuality(r.Title) <==> HighQualityItem(item)
    ensures r.Seeders == GetStr(item, "seeds") && r.Peers == GetStr(item, "peers")
    ensures r.Season == GetStr(item, "season") && r.Episode == GetStr(item, "episode")
    ensures r.MagnetLink == GetStr(item, "magnet_url")
    ensures r.Size == Utils.SizeText(Get(item, "size_bytes", JInt(0)))
    ensures r.ReleaseDate == Utils.FormatDateUtc(Get(item, "date_released_unix", JStr("")), true)
  {
    var title := Title(item);
    Models.TorrentRecord(
      Title := title,
      Resolution := Utils.ExtractResolution(title).1,
      Seeders := Str(Get(item, "seeds", JStr(""))),
      Peers := Str(Get(item, "peers", JStr(""))),
      Size := Utils.SizeText(Get(item, "size_bytes", JInt(0))),
      ReleaseDate := Utils.FormatDateUtc(Get(item, "date_released_unix", JStr("")), true),
      MagnetLink := Str(Get(item, "magnet_url", JStr(""))),
      Season := Str(Get(item, "season", JStr(""))),
      Episode := Str(Get(item, "episode", JStr(""))),
      Source := "eztv")
  }

  /** An item without a "size_bytes" key shows the size of zero bytes. */
  lemma MissingSizeIsZero(item: EztvItem)
    requires "size_bytes" !in item
    ensures NormalizeItem(item).Size == "0.00 B"
  {
    Utils.ZeroSizeText();
  }

  /** The quality test on a record: `is_high_quality(record.Title)`. */
  predicate HighQualityRecord(r: Models.TorrentRecord) {
    Utils.IsHighQuality(r.Title)
  }

  // ---------------------------------------------------------------------
  // get_latest and get_show_by_imdb
  // ---------------------------------------------------------------------

  /** `get_latest` after the HTTP call: one "eztv" record per kept item. */
  function GetLatest(body: EztvBody, min1080p: bool): (records: seq<Models.TorrentRecord>)
    ensures |records| <= |Fetch(body)|
    ensures !min1080p ==> |records| == |Fetch(body)|
    ensures forall i :: 0 <= i < |records| ==> records[i].Source == "eztv"
    ensures min1080p ==> forall i :: 0 <= i < |records| ==> HighQualityRecord(records[i])
  {
    Seqs.Map(QualityFilter(Fetch(body), min1080p), NormalizeItem)
  }

  /**
   * The quality filter keeps exactly the high-quality records, in order:
   * the result with the flag set is the result without it, filtered.
   */
  lemma GetLatestFiltered(body: EztvBody)
    ensures GetLatest(body, true) == Seqs.Filter(GetLatest(body, false), HighQualityRecord)
  {
    Seqs.MapFilter(Fetch(body), NormalizeItem, HighQualityItem, HighQualityRecord);
  }

  /** `get_show_by_imdb` after the HTTP call: the season filter, then the quality filter. */
  function GetShowByImdb(body: EztvBody, season: Option<int>, min1080p: bool): (records: seq<Models.TorrentRecord>)
    ensures |records| <= |Fetch(body)|
    ensures forall i :: 0 <= i < |records| ==> records[i].Source == "eztv"
    ensures min1080p ==> forall i :: 0 <= i < |records| ==> HighQualityRecord(records[i])
  {
    Seqs.Map(QualityFilter(SeasonFilter(Fetch(body), season), min1080p), NormalizeItem)
  }

  /** With a season given, every record shows that season. */
  lemma GetShowByImdbSeason(body: EztvBody, n: int, min1080p: bool)
    ensures forall i :: 0 <= i < |GetShowByImdb(body, Some(n), min1080p)| ==>
      GetShowByImdb(body, Some(n), min1080p)[i].Season == PyText.IntToString(n)
  {
    var items := Fetch(body);
    var kept := QualityFilter(SeasonFilter(items, Some(n)), min1080p);
    if min1080p {
      Seqs.FiltersCommute(items, SeasonTest(n), HighQualityItem);
      assert kept == Seqs.Filter(Seqs.Filter(items, HighQualityItem), SeasonTest(n));
    }
    var records := Seqs.Map(kept, NormalizeItem);
    forall i | 0 <= i < |records| ensures records[i].Season == PyText.IntToString(n) {
      assert SeasonTest(n)(kept[i]);
      assert records[i] == NormalizeItem(kept[i]);
      SeasonShown(n, kept[i]);
    }
  }

  /** The season filter and the quality filter could run in either order. */
  lemma ShowFiltersCommute(body: EztvBody, n: int)
    ensures GetShowByImdb(body, Some(n), true)
      == Seqs.Map(Seqs.Filter(QualityFilter(Fetch(body), true), SeasonTest(n)), NormalizeItem)
  {
    Seqs.FiltersCommute(Fetch(body), SeasonTest(n), HighQualityItem);
  }

  // ---------------------------------------------------------------------
  // get_top_seeded
  // ---------------------------------------------------------------------

  /** `_seeders_sort`: `int(item.get("seeds", 0))`, 0 where int() raises. */
  function SeedersSort(item: EztvItem): int {
    IntOrZero(Get(item, "seeds", JInt(0)))
  }

  /** `get_top_seeded` after the HTTP call: at most `top_n` records of the best-seeded kept items. */
  function GetTopSeeded(body: EztvBody, topN: int, min1080p: bool): (records: seq<Models.TorrentRecord>)
    ensures |records| == Seqs.PrefixLength(|QualityFilter(Fetch(body), min1080p)|, topN)
    ensures topN >= 0 ==> |records| <= topN
  {
    Seqs.Map(StableSort.TopBy(QualityFilter(Fetch(body), min1080p), SeedersSort, topN), NormalizeItem)
  }

  /** Every record `get_top_seeded` returns is an "eztv" record, and high quality with the flag set. */
  lemma GetTopSeededRecords(body: EztvBody, topN: int, min1080p: bool)
    ensures forall i :: 0 <= i < |GetTopSeeded(body, topN, min1080p)| ==>
      GetTopSeeded(body, topN, min1080p)[i].Source == "eztv"
    ensures min1080p ==> forall i :: 0 <= i < |GetTopSeeded(body, topN, min1080p)| ==>
      HighQualityRecord(GetTopSeeded(body, topN, min1080p)[i])
  {
    var kept := QualityFilter(Fetch(body), min1080p);
    var top := StableSort.TopBy(kept, SeedersSort, topN);
    Seqs.SubMultisetAll(kept, top, x => !min1080p || HighQualityItem(x));
    var records := Seqs.Map(top, NormalizeItem);
    forall i | 0 <= i < |records|
      ensures records[i].Source == "eztv" && (min1080p ==> HighQualityRecord(records[i]))
    {
      assert !min1080p || HighQualityItem(top[i]);
      assert records[i] == NormalizeItem(top[i]);
    }
  }

  /**
   * The seeds value is one whose text reads back as the number it sorts by:
   * anything but True and a value (a float, a list, an object) whose text is
   * an integer numeral, which no JSON value other than an integer or a
   * string has.
   */
  predicate PlainSeeds(item: EztvItem) {
    "seeds" in item ==>
      (item["seeds"].JBool? ==> !item["seeds"].b)
      && (item["seeds"].JOther? ==> PyText.ParseInt(item["seeds"].text).None?)
  }

  /** A record shows the seeds its item is sorted by. */
  lemma SeedsShown(item: EztvItem)
    requires PlainSeeds(item)
    ensures Models.SeedersCount(NormalizeItem(item)) == SeedersSort(item)
  {
    if "seeds" in item {
      IntOrZeroOfStr(item["seeds"]);
    } else {
      PyText.ParseIntNeedsDigit("");
    }
  }

  /** With plain seeds, the records `get_top_seeded` returns show non-increasing seeds. */
  lemma GetTopSeededOrder(body: EztvBody, topN: int, min1080p: bool)
    requires forall i :: 0 <= i < |Fetch(body)| ==> PlainSeeds(Fetch(body)[i])
    ensures var records := GetTopSeeded(body, topN, min1080p);
      forall i, j :: 0 <= i < j < |records| ==> Models.SeedersCount(records[i]) >= Models.SeedersCount(records[j])
  {
    var items := Fetch(body);
    var kept := QualityFilter(items, min1080p);
    var top := StableSort.TopBy(kept, SeedersSort, topN);
    assert multiset(kept) <= multiset(items) by {
      forall x ensures multiset(kept)[x] <= multiset(items)[x] { }
    }
    Seqs.SubMultisetAll(items, kept, PlainSeeds);
    Seqs.SubMultisetAll(kept, top, PlainSeeds);
    forall i | 0 <= i < |top| ensures Models.SeedersCount(NormalizeItem(top[i])) == SeedersSort(top[i]) {
      SeedsShown(top[i]);
    }
  }

  // ---------------------------------------------------------------------
  // sort_by_episode
  // ---------------------------------------------------------------------

  /** The key of `sort_by_episode`: (season, episode, -rank of the title, -seeders). */
  function EpisodeKey(r: Models.TorrentRecord): StableSort.Key {
    [NumberOrZero(r.Season), NumberOrZero(r.Episode), -Utils.ExtractResolution(r.Title).0, -Models.SeedersCount(r)]
  }

  /**
   * What the key order means: season first, then episode, then the higher
   * resolution rank, then the higher seeders count.
   */
  lemma EpisodeKeyOrder(a: Models.TorrentRecord, b: Models.TorrentRecord)
    ensures StableSort.KeyLe(EpisodeKey(a), EpisodeKey(b)) <==>
      var sa, sb := NumberOrZero(a.Season), NumberOrZero(b.Season);
      var ea, eb := NumberOrZero(a.Episode), NumberOrZero(b.Episode);
      var ra, rb := Utils.ExtractResolution(a.Title).0, Utils.ExtractResolution(b.Title).0;
      sa < sb || (sa == sb && (ea < eb || (ea == eb && (ra > rb || (ra == rb && Models.SeedersCount(a) >= Models.SeedersCount(b))))))
  {
    StableSort.KeyLeFour(EpisodeKey(a), EpisodeKey(b));
  }

  /**
   * `sort_by_episode`: a permutation of the records in ascending key order,
   * where records with equal keys keep their input order.
   */
  function SortByEpisode(records: seq<Models.TorrentRecord>): (r: seq<Models.TorrentRecord>)
    ensures multiset(r) == multiset(records)
    ensures StableSort.Sorted(r, EpisodeKey)
    ensures forall k :: StableSort.WithKey(r, EpisodeKey, k) == StableSort.WithKey(records, EpisodeKey, k)
  {
    StableSort.SortBySorted(records, EpisodeKey);
    StableSort.SortByStableAll(records, EpisodeKey);
    StableSort.SortBy(records, EpisodeKey)
  }

  /**
   * Within one season and episode the resolution rank of the title decides
   * before the seeders do: the better-resolved record comes first in either
   * input order, whatever the seeders.
   */
  lemma RankBeforeSeeders(a: Models.TorrentRecord, b: Models.TorrentRecord)
    requires NumberOrZero(a.Season) == NumberOrZero(b.Season)
    requires NumberOrZero(a.Episode) == NumberOrZero(b.Episode)
    requires Utils.ExtractResolution(a.Title).0 > Utils.ExtractResolution(b.Title).0
    ensures SortByEpisode([b, a]) == [a, b]
    ensures SortByEpisode([a, b]) == [a, b]
  {
    EpisodeKeyOrder(a, b);
    EpisodeKeyOrder(b, a);
    StableSort.SortPair(a, b, EpisodeKey);
  }

  /** The sort reads the rank off the title: the Resolution label plays no part. */
  lemma EpisodeKeyIgnoresLabel(r: Models.TorrentRecord, shown: string)
    ensures EpisodeKey(r.(Resolution := shown)) == EpisodeKey(r)
  {
    var relabelled := r.(Resolution := shown);
    assert relabelled.Title == r.Title && relabelled.Season == r.Season;
    assert relabelled.Episode == r.Episode && relabelled.Seeders == r.Seeders;
  }
}

/**
 * The package's TPB client once the HTTP call has returned: the decoded
 * body is reduced to at most `limit` entries, every entry is normalised
 * into a `TorrentRecord`, and records can be ranked by their seeders.
 */
module TpbClient {
  import opened Wrappers
  import opened Json
  import opened Payloads
  import Models
  import Utils
  import Seqs
  import StableSort
  import UrlQuote

  /** The categories `search_hd_movies` and `search_hd_tv` ask for; they only go into the query. */
  const CatHdMovies: int := 207
  const CatHdTv: int := 208

  // ---------------------------------------------------------------------
  // search: the post-processing of the decoded body
  // ---------------------------------------------------------------------

  /** The list the body stands for: a single object becomes a one-entry list. */
  function Entries(body: TpbBody): seq<Entry> {
    match body
    case TpbList(entries) => entries
    case TpbObject(fields) => [EntryObject(fields)]
    case TpbScalar(_) => []
  }

  /** The API's way of saying "nothing found": a first entry named "No results returned". */
  predicate NoResults(entries: seq<Entry>) {
    entries != [] && entries[0].EntryObject?
    && Get(entries[0].fields, "name", JNull) == JStr("No results returned")
  }

  /**
   * `search` after the HTTP call: a string body gives no results, any other
   * scalar body makes the indexing or the slice raise TypeError, the
   * "No results returned" marker gives no results, and otherwise the first
   * `limit` entries (Python's slice rule for a negative limit included).
   */
  function Search(body: TpbBody, limit: int): (r: Result<seq<Entry>>)
    ensures r.Err? <==> body.TpbScalar? && !body.v.JStr?
    ensures r.Err? ==> r.error == TypeError
    ensures r.Ok? ==> r.value <= Entries(body)
    ensures r.Ok? ==> (r.value == [] <==>
      body.TpbScalar? || NoResults(Entries(body)) || Seqs.PrefixLength(|Entries(body)|, limit) == 0)
    ensures r.Ok? && r.value != [] ==> |r.value| == Seqs.PrefixLength(|Entries(body)|, limit)
  {
    match body
    case TpbScalar(v) => if v.JStr? then Ok([]) else Err(TypeError)
    case _ =>
      var entries := Entries(body);
      if NoResults(entries) then Ok([]) else Ok(Seqs.Prefix(entries, limit))
  }

  /** A non-negative limit bounds the number of entries, and a single object is one result. */
  lemma SearchLimit(body: TpbBody, limit: int)
    requires limit >= 0 && Search(body, limit).Ok?
    ensures |Search(body, limit).value| <= limit
    ensures body.TpbObject? && limit >= 1 && !NoResults(Entries(body)) ==>
      Search(body, limit).value == [EntryObject(body.fields)]
  {
  }

  // ---------------------------------------------------------------------
  // _normalize_item
  // ---------------------------------------------------------------------

  /** `item.get("name", "")`. */
  function Name(item: TpbItem): string {
    Text(item, "name", "")
  }

  /** `item.get("info_hash", "")`. */
  function InfoHash(item: TpbItem): string {
    Text(item, "info_hash", "")
  }

  /**
   * `_normalize_item`: the source is "tpb", the fields TPB has no data for
   * stay empty, year and resolution label are read off the name, the
   * upload date is shown without the time, and a missing key gives "".
   */
  function NormalizeItem(item: TpbItem): (r: Models.TorrentRecord)
    ensures r.Source == "tpb"
    ensures r.Season == "" && r.Episode == "" && r.Peers == "" && r.ReleaseDate == ""
    ensures r.Title == Name(item)
    ensures r.Year == Utils.ExtractYear(r.Title) && r.Resolution == Utils.ExtractResolution(r.Title).1
    ensures r.Seeders == GetStr(item, "seeders") && r.Leechers == GetStr(item, "leechers")
    ensures r.Uploader == GetStr(item, "username") && r.ID == GetStr(item, "id")
    ensures r.MagnetLink == Utils.BuildMagnetLink(InfoHash(item), r.Title)
    ensures r.Size == Utils.SizeText(Get(item, "size", JStr("0")))
    ensures r.UploadedDate == Utils.FormatDateUtc(Get(item, "added", JStr("")), false)
  {
    var name := Name(item);
    Models.TorrentRecord(
      Title := name,
      Year := Utils.ExtractYear(name),
      Resolution := Utils.ExtractResolution(name).1,
      Seeders := Str(Get(item, "seeders", JStr(""))),
      Leechers := Str(Get(item, "leechers", JStr(""))),
      Size := Utils.SizeText(Get(item, "size", JStr("0"))),
      UploadedDate := Utils.FormatDateUtc(Get(item, "added", JStr("")), false),
      Uploader := Str(Get(item, "username", JStr(""))),
      ID := Str(Get(item, "id", JStr(""))),
      MagnetLink := Utils.BuildMagnetLink(InfoHash(item), name),
      Source := "tpb")
  }

  /** An item without a "size" key shows the size of zero bytes. */
  lemma MissingSizeIsZero(item: TpbItem)
    requires "size" !in item
    ensures NormalizeItem(item).Size == Utils.SizeText(JInt(0)) == "0.00 B"
  {
    Utils.NumeralSizeText(0);
    Utils.ZeroSizeText();
  }

  /** An item without an "info_hash" key gets no magnet link; with one, a link that names the item. */
  lemma MagnetOfItem(item: TpbItem)
    ensures InfoHash(item) == "" ==> NormalizeItem(item).MagnetLink == ""
    ensures InfoHash(item) != "" && Name(item) != "" ==>
      var m, head := NormalizeItem(item).MagnetLink, Utils.MagnetPrefix + InfoHash(item) + "&dn=";
      head <= m && UrlQuote.Unquote(m[|head|..]) == Some(Name(item))
  {
    if InfoHash(item) != "" && Name(item) != "" {
      Utils.MagnetDisplayName(InfoHash(item), Name(item));
    }
  }

  // ---------------------------------------------------------------------
  // search_hd_movies / search_hd_tv
  // ---------------------------------------------------------------------

  /**
   * The fields of every entry when all of them are objects; None when one
   * is not, on which `item.get` raises AttributeError.
   */
  function Objects(entries: seq<Entry>): (r: Option<seq<TpbItem>>)
    ensures r.Some? <==> forall i :: 0 <= i < |entries| ==> entries[i].EntryObject?
    ensures r.Some? ==> |r.value| == |entries|
    ensures r.Some? ==> forall i :: 0 <= i < |entries| ==> r.value[i] == entries[i].fields
  {
    if entries == [] then Some([])
    else if !entries[0].EntryObject? then None
    else match Objects(entries[1..])
      case None => None
      case Some(rest) => Some([entries[0].fields] + rest)
  }

  /**
   * `search_hd_movies` and `search_hd_tv` after the HTTP call (they differ
   * only in the category sent): one "tpb" record per entry `search` keeps,
   * in order; the error of `search`, or AttributeError for an entry that is
   * no object.
   */
  function SearchHd(body: TpbBody, limit: int): (r: Result<seq<Models.TorrentRecord>>)
    ensures Search(body, limit).Err? ==> r == Err(Search(body, limit).error)
    ensures Search(body, limit).Ok? ==>
      var entries := Search(body, limit).value;
      (r.Err? <==> exists i :: 0 <= i < |entries| && !entries[i].EntryObject?)
      && (r.Err? ==> r.error == AttributeError)
      && (r.Ok? ==> |r.value| == |entries|)
      && (r.Ok? ==> forall i :: 0 <= i < |entries| ==> r.value[i] == NormalizeItem(entries[i].fields))
  {
    match Search(body, limit)
    case Err(e) => Err(e)
    case Ok(entries) =>
      match Objects(entries)
      case None => Err(AttributeError)
      case Some(items) => Ok(Seqs.Map(items, NormalizeItem))
  }

  /** Every record of a successful search is a "tpb" record with no season, episode or peers. */
  lemma SearchHdRecords(body: TpbBody, limit: int)
    requires SearchHd(body, limit).Ok?
    ensures forall i :: 0 <= i < |SearchHd(body, limit).value| ==>
      var r := SearchHd(body, limit).value[i];
      r.Source == "tpb" && r.Season == "" && r.Episode == "" && r.Peers == ""
  {
  }

  // ---------------------------------------------------------------------
  // sort_by_seeders
  // ---------------------------------------------------------------------

  /**
   * `sort_by_seeders`: a permutation of the records in non-increasing
   * `int(Seeders)` (0 where int() raises), records with equal counts in
   * their input order.
   */
  function SortBySeeders(records: seq<Models.TorrentRecord>): (r: seq<Models.TorrentRecord>)
    ensures multiset(r) == multiset(records)
    ensures forall i, j :: 0 <= i < j < |r| ==> Models.SeedersCount(r[i]) >= Models.SeedersCount(r[j])
    ensures forall k ::
      StableSort.WithKey(r, StableSort.Negated(Models.SeedersCount), k)
      == StableSort.WithKey(records, StableSort.Negated(Models.SeedersCount), k)
  {
    StableSort.SortDescending(records, Models.SeedersCount)
  }

  /** Sorting sorted records changes nothing. */
  lemma SortBySeedersIdempotent(records: seq<Models.TorrentRecord>)
    ensures SortBySeeders(SortBySeeders(records)) == SortBySeeders(records)
  {
    StableSort.SortDescendingIdempotent(records, Models.SeedersCount);
  }
}

# torrent-api-clients: the normalisation and ranking layer in Dafny

torrent-api-clients fetches torrent listings from two public JSON APIs. EZTV serves TV episodes; The Pirate Bay (TPB, through apibay) serves movies and shows. It turns the loosely shaped items into one fixed record and orders the results.

This project models what happens after the HTTP response is decoded, in both generations of the code:

- **The package `torrent_api_clients/`**
  - The text heuristics of `utils.py`: year and resolution extraction, the quality test, the magnet link, safe file names, the size and date formatters, and the rows `write_csv` writes.
  - The canonical `TorrentRecord` and `CSV_HEADERS` of `models.py`.
  - The two provider clients in `clients/eztv.py` and `clients/tpb.py`: response post-processing, `_normalize_item`, the season and quality filters, and the stable sorts and top-N slice.
- **The two stand-alone scripts at the repository root, as their own modules**
  - `eztv_client.py` has its own resolution table, sort key and CSV rows.
  - `tbp_client.py` has its own resolution table, size and timestamp formatters, row transform and seeder sort.
  - The lemmas in these modules relate each script to the package, including where the two disagree.

The modules are:

- `Json` and `Payloads` (decoded JSON, `.get`, `str()`, `int()`, `float()`; the shapes of the two APIs' responses).
- `PyText` (ASCII `lower()`, `in` on strings, `strip()`, decimal numerals, `int()`/`float()` parsing, `:.2f`).
- `UrlQuote` (`urllib.parse.quote` over UTF-8, with its inverse).
- `UtcCalendar` (days to the proleptic Gregorian calendar, `%Y-%m-%d %H:%M:%S`).
- `Seqs` (comprehensions and slices).
- `StableSort` (Python's stable `sorted`/`list.sort` on lexicographic integer keys; `reverse=True` as an ascending sort on the negated key).
- `Models`, `Utils`, `EztvClient`, `TpbClient`, `EztvScript` and `TpbScript`, one per source file.

Where a root script contains exactly the package's code, the model reuses the package member:

- `tbp_client.py` `_extract_year` is `Utils.ExtractYear`.
- Its `_search` post-processing is `TpbClient.Search`. Its `search_hd_movies`/`search_hd_tv` are `TpbClient.Search` with the category constants 207/208.
- Its magnet construction in `_transform_item` is `Utils.BuildMagnetLink`.
- `eztv_client.py` `format_file_size` is `Utils.SizeText`.
- Its `format_date` is `Utils.FormatDateUtc` with the time shown.

`extract_year` keeps the last match of a non-overlapping left-to-right scan. The repository's description calls this the rightmost year-like substring. The two differ on overlapping candidates, and the model follows the code: "202019" gives "2020", not "2019" (`Utils.ExtractYearOverlap`).

The description also promises that the normalisers never raise. As written, they can raise OverflowError (see Findings).

## Model

| member | source | states |
|---|---|---|
| Json.GetStr | torrent_api_clients/clients/eztv.py:112-118 | `str(item.get(key, ""))` is "" for a missing key and the text of the value otherwise |
| Json.IntOrZeroOfStr | torrent_api_clients/clients/tpb.py:76-80 | reading back the text a normaliser stored gives the number the raw value would have given (except for True and numeral-like other values) |
| UrlQuote.Quote | torrent_api_clients/utils.py:106 | `quote(name)`: the UTF-8 bytes of the name, unreserved ones and "/" kept, every other byte as %XX; its properties are the rows below |
| UrlQuote.UnquoteQuote | torrent_api_clients/utils.py:106 | percent-decoding `quote(name)` and decoding the bytes as UTF-8 gives back the name |
| UrlQuote.QuoteAlphabet | torrent_api_clients/utils.py:106 | `quote` produces only unreserved characters, "/" and "%" |
| UrlQuote.QuoteNoDelimiters | torrent_api_clients/utils.py:106 | a quoted name holds no "&" or "#", so it cannot end the dn parameter or the URI |
| UrlQuote.QuoteSafe | torrent_api_clients/utils.py:106 | a name made only of unreserved characters and "/" is left as it is |
| UrlQuote.Utf8RoundTrip | torrent_api_clients/utils.py:106 | the UTF-8 encoding `quote` works on decodes back to the original text |
| Models.FieldValues | torrent_api_clients/models.py:24-40 | a record has exactly as many field values as there are headers, 15 |
| Models.FromFieldValues | torrent_api_clients/models.py:24-40 | every list of 15 texts is the field list of a record built from it |
| Models.CsvHeadersDistinct | torrent_api_clients/models.py:5-21 | the header list has 15 entries and no duplicates |
| Models.DefaultsEmpty | torrent_api_clients/models.py:26-40 | a record built from a title alone has every other field "" |
| Models.RecordsAreValues | torrent_api_clients/models.py:24-25 | two records are equal exactly when their field values are, and a record is rebuilt from its field values |
| Models.AsDict | torrent_api_clients/utils.py:145 | `asdict(record)` has exactly the header names as keys, each mapped to the field of that name |
| Models.AsDictInjective | torrent_api_clients/utils.py:145-146 | two records with the same dictionary are the same record |
| Utils.ExtractYear | torrent_api_clients/utils.py:66-74 | `extract_year`: "" for an empty title or no match, else the last match of the scan; stated by Utils.ExtractYearSpec |
| Utils.YearMatches | torrent_api_clients/utils.py:70 | every reported match position holds a 19dd/20dd window at or after the scan start, and matches do not overlap |
| Utils.YearMatchesLeftmost | torrent_api_clients/utils.py:70 | the scan is leftmost and greedy: no window starts before the first match, nor between the end of one match and the start of the next |
| Utils.ExtractYearSpec | torrent_api_clients/utils.py:66-74 | "" exactly when no 19dd/20dd window exists; otherwise the window at a match position of the scan after whose end no window starts, that is the last match `findall` reports |
| Utils.ExtractYearExamples | tests/test_parsing.py:9-12 | "Movie.2019.1080p" gives "2019", "Classic.1995.Remaster" gives "1995", "No.Year.Here" gives "" |
| Utils.ExtractYearOverlap | torrent_api_clients/utils.py:70-74 | on "202019", where windows overlap, the scan returns "2020" although "2019" also occurs |
| Utils.ExtractYearRescan | torrent_api_clients/utils.py:70-74 | on "19201999" the scan returns "1999", not the window "2019" that overlaps both matches |
| Utils.ExtractResolution | torrent_api_clients/utils.py:77-92 | the result is one of the six (rank, label) pairs of the table |
| Utils.IsHighQuality | torrent_api_clients/utils.py:95-97 | a title is of quality exactly when its label is 2160p, 1440p or 1080p |
| Utils.ExtractResolutionExamples | tests/test_parsing.py:15-19 | the four labels the tests expect |
| Utils.ResolutionTableOrder | torrent_api_clients/utils.py:82-87 | "Show.4K.1080p" gets (4, "2160p"): the 4K entry is checked first |
| Utils.ExtractResolutionIgnoresCase | torrent_api_clients/utils.py:81 | lowering the title first changes nothing |
| Utils.ExtractResolutionMonotone | torrent_api_clients/utils.py:82-92 | joining two titles never lowers the rank of either, and keeps a quality title one |
| Utils.BuildMagnetLink | torrent_api_clients/utils.py:100-107 | "" without a hash whatever the name; exactly prefix + hash without a name; otherwise starts with prefix + hash |
| Utils.MagnetDisplayName | torrent_api_clients/utils.py:104-106 | with hash and name, the link is prefix + hash + "&dn=" + a tail that unquotes to the name and holds no "&" or "#" |
| Utils.SafeFilename | torrent_api_clients/utils.py:110-112 | never "", only word characters and "-", neither first nor last character "_" |
| Utils.SafeFilenameIdempotent | torrent_api_clients/utils.py:110-112 | applying it twice gives what applying it once gives |
| Utils.SafeFilenameOfClean | torrent_api_clients/utils.py:110-112 | a name already made of name-character runs without edge "_" is returned unchanged |
| Utils.SafeFilenameExamples | torrent_api_clients/utils.py:111-112 | "a b" gives "a_b"; "???" gives the fallback "results" |
| Utils.SizeText | torrent_api_clients/utils.py:40-51 | the text `format_size_bytes` returns, "Unknown" where `float()` raises, else the value scaled to B through PB; the loop Utils.FormatSizeBytes is proved to compute it |
| Utils.FormatSizeBytes | torrent_api_clients/utils.py:40-51 | the loop computes "Unknown" where `float()` fails and otherwise the value scaled to its unit |
| Utils.ScaleToUnit | torrent_api_clients/utils.py:46-51 | the division loop ends at the unit whose threshold the value reaches and whose next it does not, PB at most |
| Utils.UnitFrom | torrent_api_clients/utils.py:46-49 | the unit index is the largest whose power of 1024 the value reaches, capped at the top unit |
| Utils.SizeUnitThresholds | torrent_api_clients/utils.py:46-51 | a byte count n gets B below 1024, KB below 1024², MB, GB, TB likewise, PB from 1024⁵ on |
| Utils.SizeTextExamples | tests/test_parsing.py:22-24 | 1024 gives "1.00 KB" and 1048576, whose numeral is "1048576", gives "1.00 MB" (the numeral string reads the same, by Utils.NumeralSizeText) |
| Utils.NumeralSizeText | torrent_api_clients/utils.py:42 | a byte count sent as a numeral string is formatted like the number |
| Utils.PowerText | torrent_api_clients/utils.py:46-49 | each power 1024^k (k from 1 to 4) is shown as "1.00" in the k-th unit |
| Utils.FormatDateUtc | torrent_api_clients/utils.py:54-63 | "Unknown Date" exactly when `int()` fails or the timestamp lies outside years 1 to 9999 |
| Utils.FormatDateUtcLayouts | torrent_api_clients/utils.py:61-63 | `with_time` alone decides the layout: the date-only text followed by a space starts the date-and-time text, which is 9 characters longer |
| Utils.FormatInRange | torrent_api_clients/utils.py:57-63 | an integer timestamp in range is shown as its UTC calendar text |
| Utils.FormatDateUtcExamples | tests/test_parsing.py:27-29 | 0 gives "1970-01-01" and "1970-01-01 00:00:00"; a non-numeral gives "Unknown Date" |
| Utils.FormatDateUtcAsWritten | torrent_api_clients/utils.py:54-59 | as written, an integer timestamp outside the 64-bit time_t range raises OverflowError; otherwise the corrected text |
| Utils.FormatDateUtcOverflows | torrent_api_clients/utils.py:56-58 | 2^63 raises OverflowError as written, where "Unknown Date" is intended |
| Utils.FormatSizeBytesAsWritten | torrent_api_clients/utils.py:41-44 | as written, an integer too large for a float raises OverflowError; otherwise the corrected text |
| Utils.FormatSizeBytesOverflows | torrent_api_clients/utils.py:41-44 | the smallest integer that rounds past the largest float raises as written, though it is an ordinary PB count |
| Utils.WriteCsvRows | torrent_api_clients/utils.py:132-149 | the header is written unless appending to an existing file; one dictionary per record, in order; the count is the number of records |
| StableSort.SortDescending | torrent_api_clients/clients/tpb.py:82 | `sorted(..., reverse=True)` is a permutation, non-increasing in the key, and keeps the input order of equal keys |
| StableSort.SortDescendingIdempotent | torrent_api_clients/clients/tpb.py:82 | sorting a sorted list again changes nothing |
| EztvClient.Fetch | torrent_api_clients/clients/eztv.py:32-36 | [] exactly when the body is no object or "torrents" is missing, null or empty; otherwise that list unchanged |
| EztvClient.QualityFilter | torrent_api_clients/clients/eztv.py:46-47 | with the flag, every high-quality item as often as it occurs and nothing else; without it, every item |
| EztvClient.InSeason | torrent_api_clients/clients/eztv.py:59 | `str(item.get("season")) == str(season)`: the item's season shows as the season's numeral; used by EztvClient.SeasonFilter |
| EztvClient.SeasonFilter | torrent_api_clients/clients/eztv.py:58-59 | with a season, exactly the items whose `str(season)` matches, with their multiplicities; without one, every item |
| EztvClient.SeasonShown | torrent_api_clients/clients/eztv.py:59 | an item that passes the season filter has a season, and its record shows that season |
| EztvClient.NormalizeItem | torrent_api_clients/clients/eztv.py:105-120 | Source "eztv"; Year, Leechers, UploadedDate, Uploader and ID ""; resolution label from the title; text fields `str()` of the raw value or ""; size and date through the formatters |
| EztvClient.MissingSizeIsZero | torrent_api_clients/clients/eztv.py:114 | a missing size shows as "0.00 B" |
| EztvClient.GetLatest | torrent_api_clients/clients/eztv.py:38-48 | one "eztv" record per kept item; every item without the flag; only quality records with it |
| EztvClient.GetLatestFiltered | torrent_api_clients/clients/eztv.py:46-48 | the result with the flag is the result without it, filtered to the quality records in order |
| EztvClient.GetShowByImdb | torrent_api_clients/clients/eztv.py:50-62 | at most one record per fetched item, all "eztv", quality ones under the flag |
| EztvClient.GetShowByImdbSeason | torrent_api_clients/clients/eztv.py:58-62 | with a season, every record shows that season |
| EztvClient.ShowFiltersCommute | torrent_api_clients/clients/eztv.py:58-62 | filtering by season then quality gives the same records as quality then season |
| EztvClient.SeedersSort | torrent_api_clients/clients/eztv.py:78-83 | `_seeders_sort`: `int(seeds)`, 0 where `int()` raises; its relation to the record's Seeders is EztvClient.SeedsShown |
| StableSort.TopBy | torrent_api_clients/clients/eztv.py:75-76 | sort descending by the key, then `[:n]`: as many items as the slice keeps, drawn from the input, non-increasing in the key |
| StableSort.TopByBest | torrent_api_clients/clients/eztv.py:75-76 | no item left out has a larger key than any item kept |
| StableSort.TopByStable | torrent_api_clients/clients/eztv.py:75-76 | items with equal keys keep their input order, and the kept ones of each key are the first of them |
| EztvClient.GetTopSeeded | torrent_api_clients/clients/eztv.py:64-76 | the number of records is what `[:top_n]` leaves of the filtered items, at most `top_n` |
| EztvClient.GetTopSeededRecords | torrent_api_clients/clients/eztv.py:64-76 | every record is "eztv", and of quality under the flag |
| EztvClient.SeedsShown | torrent_api_clients/clients/eztv.py:79-83 | the record's Seeders text reads back as the number the item was sorted by |
| EztvClient.GetTopSeededOrder | torrent_api_clients/clients/eztv.py:75-83 | the returned records' Seeders are non-increasing as integers, unparseable ones as 0 |
| EztvClient.EpisodeKey | torrent_api_clients/clients/eztv.py:87-101 | the `_key` tuple (season, episode, -rank, -seeds), unparseable numbers as 0; its order is EztvClient.EpisodeKeyOrder |
| EztvClient.EpisodeKeyOrder | torrent_api_clients/clients/eztv.py:87-101 | the key orders by season, then episode, then higher rank, then more seeders, each unparseable number as 0 |
| EztvClient.SortByEpisode | torrent_api_clients/clients/eztv.py:86-103 | a permutation of the records, ascending in the key, records of equal key in input order |
| EztvClient.RankBeforeSeeders | torrent_api_clients/clients/eztv.py:96-101 | in one season and episode the higher-rank record comes first whatever the seeders |
| EztvClient.EpisodeKeyIgnoresLabel | torrent_api_clients/clients/eztv.py:96 | the rank is read from the Title; the Resolution field does not affect the order |
| TpbClient.Entries | torrent_api_clients/clients/tpb.py:37-40 | a dict body becomes a one-entry list, a list stays, a string gives no entries |
| TpbClient.NoResults | torrent_api_clients/clients/tpb.py:41-42 | the first entry is an object whose name is "No results returned" |
| TpbClient.Search | torrent_api_clients/clients/tpb.py:37-44 | a string body gives []; another scalar raises TypeError; a dict is wrapped; the "No results returned" marker gives []; otherwise the `[:limit]` prefix |
| TpbClient.SearchLimit | torrent_api_clients/clients/tpb.py:37-44 | for a non-negative limit at most `limit` entries; a single dict becomes a one-element list |
| TpbClient.NormalizeItem | torrent_api_clients/clients/tpb.py:54-72 | Source "tpb"; Season, Episode, Peers and ReleaseDate ""; year, label and magnet from the name; text fields `str()` of the raw value or ""; size defaulting to "0"; date without time |
| TpbClient.MissingSizeIsZero | torrent_api_clients/clients/tpb.py:56 | a missing size shows as "0.00 B" |
| TpbClient.MagnetOfItem | torrent_api_clients/clients/tpb.py:57-70 | no hash gives no link; with hash and name the dn value unquotes to the name |
| TpbClient.Objects | torrent_api_clients/clients/tpb.py:46-52 | the fields of every entry exactly when all entries are objects, one per entry in order; None when one is not, where `item.get` raises |
| TpbClient.SearchHd | torrent_api_clients/clients/tpb.py:46-52 | the search's error, AttributeError for a non-object entry, or exactly one record per entry in order |
| TpbClient.SearchHdRecords | torrent_api_clients/clients/tpb.py:46-52 | every record is "tpb" with Season, Episode and Peers empty |
| TpbClient.SortBySeeders | torrent_api_clients/clients/tpb.py:75-82 | a permutation whose Seeders are non-increasing as integers (unparseable as 0), equal ones in input order |
| TpbClient.SortBySeedersIdempotent | torrent_api_clients/clients/tpb.py:75-82 | sorting sorted records again changes nothing |
| EztvScript.GetResolution | eztv_client.py:47-63 | only four tiers: (4, "2160p (4K)"), (3, "1080p"), (2, "720p"), (1, "SD / Unknown") |
| EztvScript.IsHighQuality | eztv_client.py:66-69 | of quality exactly when the label is "2160p (4K)" or "1080p" |
| EztvScript.RanksAgainstPackage | eztv_client.py:55-63 | the script's rank equals the package's except on 1440p (rank at most 3) and 480p (rank 1); the 4K labels correspond; script quality implies package quality, and the converse fails only for 1440p |
| EztvScript.NoScriptTier | eztv_client.py:57-63 | a title mentioning no tier gets (1, "SD / Unknown") |
| EztvScript.Resolution1440Contrast | eztv_client.py:57-63 | "Show.1440p" is SD / Unknown for the script and (3, "1440p") for the package |
| EztvScript.Resolution480Contrast | eztv_client.py:57-63 | "Show.480p" is SD / Unknown for the script and (2, "480p") for the package |
| EztvScript.FetchData | eztv_client.py:91-96 | a body that is no object raises AttributeError; otherwise the package's `_fetch` result |
| EztvScript.SortKey | eztv_client.py:98-121 | the tuple of `_sort_key_generator`, with the script's own rank and 0 for unparseable numbers; its order is EztvScript.SortKeyOrder |
| EztvScript.SortKeyOrder | eztv_client.py:98-121 | the key orders by season, episode, higher script rank, then more seeds |
| EztvScript.SortKeyDefaults | eztv_client.py:101-118 | missing season, episode and seeds count as 0 |
| EztvScript.QualityFilter | eztv_client.py:218-219 | the quality filter with the script's own test keeps exactly the script's quality items |
| EztvScript.ShowItems | eztv_client.py:211-219 | the items kept by the season and quality filters, with their multiplicities |
| EztvScript.ReplaceSpaces | eztv_client.py:204 | same length, no space, every other character kept |
| EztvScript.Pad2 | eztv_client.py:213 | a non-negative season is at least two digits |
| EztvScript.Pad2RoundTrip | eztv_client.py:213 | the padded season reads back as the season |
| EztvScript.GetShowByImdb | eztv_client.py:196-224 | AttributeError exactly for a non-object body; otherwise prefix name + "_Snn"/"_All" + "_HQ", and the kept items sorted by the key, as a permutation, stable |
| EztvScript.ShowPrefixHasNoSpace | eztv_client.py:204-220 | the file-name prefix holds no space |
| EztvScript.GetLatest | eztv_client.py:183-194 | AttributeError exactly for a non-object body; otherwise the fetched items, filtered with the script's quality test when asked |
| EztvScript.LatestWithinPackage | eztv_client.py:190-192 | the script keeps no item the package's `get_latest` drops |
| EztvScript.SeedsKey | eztv_client.py:243 | the sort key lambda: `int()` of an integer, boolean or string, None where a string raises ValueError, 0 for any other value |
| EztvScript.SeedsKeyAgainstPackage | eztv_client.py:243 | where the script's key does not raise it equals the package's `_seeders_sort`; where it raises, the package reads 0 |
| EztvScript.GetTopSeeded | eztv_client.py:226-248 | AttributeError for a non-object body; ValueError exactly when a kept item's seeds is a non-numeral string; otherwise prefix "top_N_seeded" and `[:top_n]` of the kept items, non-increasing in seeds |
| EztvScript.Cells | eztv_client.py:152-173 | nine cells in header order, the resolution column being the script's label of the title column |
| EztvScript.Row | eztv_client.py:151-174 | a row exactly when neither formatter overflows, built from the formatted size and date |
| EztvScript.RowDefaults | eztv_client.py:152-161 | an empty item gives "Unknown Title", "N/A", "N/A", "SD / Unknown", "0.00 B", "0", "0", the epoch, "N/A" |
| EztvScript.DefaultCells | eztv_client.py:152-173 | the title, season, episode, seeds, peers and magnet defaults |
| EztvScript.UnknownTitleResolution | eztv_client.py:152-156 | the default title "Unknown Title" is of unknown resolution |
| EztvScript.RowsWritten | eztv_client.py:150-175 | the rows the loop writes before the first item whose row raises, never more than the items |
| EztvScript.RowsWrittenPrefix | eztv_client.py:145-179 | the rows written are the rows of the first items, and the item after them is the one whose row raised |
| EztvScript.WriteRows | eztv_client.py:145-179 | the loop writes the header for a non-empty list, then rows until one raises; saved exactly when all were written |
| EztvScript.SaveToCsv | eztv_client.py:123-179 | nothing for an empty list; otherwise header, then each item's row in order up to the first that raises; the count is reported only when every row was written |
| TpbScript.FirstMentioned | tbp_client.py:127-131 | a pattern of the list the lowered name contains, or none exactly when it contains none |
| TpbScript.FirstMentionedIsFirst | tbp_client.py:127-131 | the pattern found is the first in list order that the name contains |
| TpbScript.ExtractResolution | tbp_client.py:117-133 | "" or one of 2160p, 1440p, 1080p, 720p, 480p |
| TpbScript.ExtractResolutionChain | tbp_client.py:121-133 | for a non-empty name, 2160p when it mentions "2160p", "2160" or "4k", else the first of 1440p, 1080p, 720p, 480p it mentions, else "" |
| TpbScript.ResolutionAgainstPackage | tbp_client.py:127-131 | the script and the package agree unless one says 2160p; only a bare "2160" or "uhd" makes them differ |
| TpbScript.UhdContrast | tbp_client.py:127-131 | "Movie.UHD" has no resolution for the script and 2160p for the package |
| TpbScript.BareUhdNumberContrast | tbp_client.py:127-130 | "Movie.2160" is 2160p for the script and has no resolution for the package |
| TpbScript.HumanSizeText | tbp_client.py:72-86 | "unknown" exactly when `int()` fails; otherwise the value scaled with TB as the top unit |
| TpbScript.HumanSize | tbp_client.py:76-86 | the while loop computes exactly that text |
| TpbScript.HumanSizeAgainstPackage | tbp_client.py:81-86 | below 1024⁵ the script shows what the package shows; from there on the script stays at TB where the package moves to PB |
| TpbScript.MissingSize | tbp_client.py:153 | the default size "0" shows as "0.00 B" |
| TpbScript.HumanSizeAsWritten | tbp_client.py:76-86 | as written, a size too large for a float raises OverflowError; otherwise the corrected text |
| TpbScript.HumanSizeOverflows | tbp_client.py:84 | the smallest integer past the largest float raises as written |
| TpbScript.FormatTimestamp | tbp_client.py:89-98 | "unknown" exactly when `int()` fails or the year falls outside 1 to 9999; otherwise the UTC date |
| TpbScript.TimestampAgainstPackage | tbp_client.py:89-98 | the script's date is the package's date-only text, with "unknown" for "Unknown Date" |
| TpbScript.FormatTimestampAsWritten | tbp_client.py:93-98 | as written, a timestamp outside the 64-bit time_t range raises OverflowError; otherwise the corrected text |
| TpbScript.TimestampOverflows | tbp_client.py:95 | 2^63 raises as written, where "unknown" is intended |
| TpbScript.ColumnsArePackagePrefix | tbp_client.py:191-202 | the script's ten columns are the first ten of the package's header list |
| TpbScript.SeedersAsInt | tbp_client.py:136-143 | `int(seeders)`, 0 where `int()` raises; stated by TpbScript.RowSeedersOfTransform |
| TpbScript.TransformItem | tbp_client.py:147-174 | the row `_transform_item` builds; compared with the package's record by the TransformAgrees rows |
| TpbScript.TransformAgreesOnName | tbp_client.py:152-174 | title, year and magnet link of a row equal those of the package's record |
| TpbScript.TransformAgreesOnRaw | tbp_client.py:167-172 | the seeders, leechers, uploader and ID cells equal the package's texts wherever the raw value is not null |
| TpbScript.TransformAgreesOnDate | tbp_client.py:170 | the upload date equals the package's, with "unknown" for "Unknown Date" |
| TpbScript.RowSeedersOfTransform | tbp_client.py:136-143 | a row's seeders cell reads as `_seeders_as_int` of its item |
| TpbScript.SortThenTransform | tbp_client.py:188-189 | sorting the items then transforming equals transforming then sorting the rows by their seeders |
| TpbScript.SaveResults | tbp_client.py:176-210 | AttributeError exactly when an entry is no object; otherwise one row per item, in non-increasing seeders, the stable descending sort of the transformed items |
| TpbScript.SaveResultsPermutes | tbp_client.py:188-189 | the rows are a permutation of the transformed items |

## Left out

- HTTP transport is left out: sessions, retries, `requests.get`, status checks and the RuntimeError wrapping. Each operation takes the decoded JSON body as a parameter.
- File output is left out: opening and writing files, CSV quoting, directory creation, and the `print` messages. The model stops at the rows or dictionaries each record becomes, and at the header and row count.
- The wall clock is left out: `resolve_output_path` and the timestamped file name in `_save_to_csv`. Because of that, `EztvScript.GetTopSeeded` and `EztvScript.GetShowByImdb` return only the prefix.
- `config.py`, `cli.py`, the `legacy/` shims and the scripts' `main()` functions are argument parsing, configuration I/O and console glue, and are not part of this model.
- Json.ToFloat, Json.ToInt: a JSON float value is treated as raising. In Python, `int(1.5)` is 1 and `float(1.5)` is 1.5, so a float size or timestamp reads as "Unknown"/"unknown" in the model.
- Json.ToInt: Python's `int()` also accepts underscores between digits and non-ASCII digits. `float()` also accepts exponents, "inf" and "nan". The model reads ASCII decimal numerals with an optional sign and surrounding whitespace only.
- Utils.ScaleToUnit: the `:.2f` numeral is computed on exact reals with round-half-even. Python divides in binary floating point, so the last digit can differ for sizes that are not exact in a double. Unit selection agrees for integer byte counts, whose thresholds 1024^k are exact doubles. It can differ for a numeral string with more digits than a double holds: `float("1023.99999999999999999")` is 1024.0, so Python shows "1.00 KB" where the model shows "1024.00 B".
- Utils.SizeText: Python's `float()` reads a numeral string too large for a double as infinity, giving "inf PB". The model shows the exact number in PB.
- PyText.Lower: `lower()`, the `\w` class of `safe_filename` and the `\d` class of the year pattern are modelled on ASCII only; Python's `\d` also matches other Unicode decimal digits.
- Payloads.EztvItem, Payloads.TpbItem: a title or name that is present but not a string is excluded by the subset types. The source would crash in `lower()` or store the non-string.
- Payloads.EztvBody: a "torrents" value that is truthy but not a list is not modelled. Neither is a list element that is not an object: the source raises AttributeError at its first `item.get` (torrent_api_clients/clients/eztv.py:47, 59, 73, 81 and 106; eztv_client.py:192, 212, 219 and 243), and the model's EZTV operations, which take only object elements, have no such error path.
- EztvClient.NormalizeItem, TpbClient.NormalizeItem: use the corrected formatters, so the OverflowError listed under Findings is not raised there.
- TpbScript.SaveResults: uses the corrected formatters, so the OverflowError listed under Findings is not raised there. An empty list gives no rows, where the source prints a message and writes no file.
- EztvClient.GetTopSeeded, EztvScript.GetTopSeeded, EztvScript.GetShowByImdb: `list.sort` in place is modelled as a sort of the value; no other reference to the list exists in the source.

## Findings

| source | as written | input that shows it | evidently intended | confidence | as-written member | corrected member |
|---|---|---|---|---|---|---|
| torrent_api_clients/utils.py:55-59 | `datetime.fromtimestamp` raises OverflowError for a timestamp outside the platform time_t, and the `except` tuple does not name it, so the normaliser raises | `format_date_utc(2**63)` | "Unknown Date", as for every other unusable timestamp | not executed | Utils.FormatDateUtcOverflows | Utils.FormatDateUtc |
| torrent_api_clients/utils.py:41-44 | `float()` of an integer beyond the largest double raises OverflowError, which `except (TypeError, ValueError)` does not catch | a size_bytes of 2**1024 - 2**970, an ordinary count of PB | a size text or "Unknown", never an exception | not executed | Utils.FormatSizeBytesOverflows | Utils.FormatSizeBytes |
| tbp_client.py:76-86 | `size /= 1024.0` turns a huge integer into a float and raises OverflowError, and nothing catches it | a size of 2**1024 - 2**970 | a size text in TB | not executed | TpbScript.HumanSizeOverflows | TpbScript.HumanSize |
| tbp_client.py:93-98 | `datetime.fromtimestamp` raises OverflowError beyond time_t, which the `except` tuple does not name | an added value of 2**63 | "unknown" | not executed | TpbScript.TimestampOverflows | TpbScript.FormatTimestamp |

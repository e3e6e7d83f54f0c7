/**
 * The canonical record every provider item is normalised into, and the CSV
 * header list that names its fields.
 */
module Models {
  import Json

  /** `TorrentRecord`: fifteen text fields, each empty unless given. */
  datatype TorrentRecord = TorrentRecord(
    Title: string := "",
    Year: string := "",
    Resolution: string := "",
    Seeders: string := "",
    Leechers: string := "",
    Size: string := "",
    UploadedDate: string := "",
    Uploader: string := "",
    ID: string := "",
    MagnetLink: string := "",
    Season: string := "",
    Episode: string := "",
    Peers: string := "",
    ReleaseDate: string := "",
    Source: string := "")

  /** `int(record.Seeders)`, 0 where int() raises: the count the seeders sorts rank records by. */
  function SeedersCount(r: TorrentRecord): int {
    Json.NumberOrZero(r.Seeders)
  }

  /** `CSV_HEADERS`. */
  const CsvHeaders: seq<string> := [
    "Title", "Year", "Resolution", "Seeders", "Leechers", "Size", "UploadedDate", "Uploader",
    "ID", "MagnetLink", "Season", "Episode", "Peers", "ReleaseDate", "Source"]

  /** The field values of a record, in declaration order. */
  function FieldValues(r: TorrentRecord): (vs: seq<string>)
    ensures |vs| == |CsvHeaders|
  {
    [r.Title, r.Year, r.Resolution, r.Seeders, r.Leechers, r.Size, r.UploadedDate, r.Uploader,
     r.ID, r.MagnetLink, r.Season, r.Episode, r.Peers, r.ReleaseDate, r.Source]
  }

  /** The record whose fields, in declaration order, are `vs`. */
  function FromFieldValues(vs: seq<string>): (r: TorrentRecord)
    requires |vs| == |CsvHeaders|
    ensures FieldValues(r) == vs
  {
    TorrentRecord(vs[0], vs[1], vs[2], vs[3], vs[4], vs[5], vs[6], vs[7],
                  vs[8], vs[9], vs[10], vs[11], vs[12], vs[13], vs[14])
  }

  /** `dict(zip(keys, values))`: a later key overrides an earlier equal one. */
  function Zip(keys: seq<string>, values: seq<string>): (d: map<string, string>)
    requires |keys| == |values|
  {
    if keys == [] then map[]
    else Zip(keys[..|keys| - 1], values[..|values| - 1])[keys[|keys| - 1] := values[|values| - 1]]
  }

  /** The keys of the dictionary are the keys listed. */
  lemma {:induction false} ZipKeys(keys: seq<string>, values: seq<string>)
    requires |keys| == |values|
    ensures Zip(keys, values).Keys == set k | k in keys
  {
    if keys != [] {
      var n := |keys| - 1;
      ZipKeys(keys[..n], values[..n]);
      assert keys == keys[..n] + [keys[n]];
    }
  }

  /** With distinct keys every key is paired with the value at its own position. */
  lemma {:induction false} ZipPairs(keys: seq<string>, values: seq<string>)
    requires |keys| == |values|
    requires forall i, j :: 0 <= i < j < |keys| ==> keys[i] != keys[j]
    ensures forall i :: 0 <= i < |keys| ==> keys[i] in Zip(keys, values) && Zip(keys, values)[keys[i]] == values[i]
  {
    ZipKeys(keys, values);
    if keys != [] {
      var n := |keys| - 1;
      var ks, vs := keys[..n], values[..n];
      assert forall i, j :: 0 <= i < j < |ks| ==> ks[i] != ks[j] by {
        forall i, j | 0 <= i < j < |ks| ensures ks[i] != ks[j] {
          assert ks[i] == keys[i] && ks[j] == keys[j];
        }
      }
      ZipPairs(ks, vs);
      var prev := Zip(ks, vs);
      forall i | 0 <= i < |keys| ensures keys[i] in Zip(keys, values) && Zip(keys, values)[keys[i]] == values[i] {
        if i < n {
          assert keys[i] != keys[n];
          assert prev[ks[i]] == vs[i];
          assert ks[i] == keys[i] && vs[i] == values[i];
        }
      }
    }
  }

  /**
   * `dataclasses.asdict(r)`: its keys are exactly the CSV headers, and the
   * header at position i names the i-th field.
   */
  function AsDict(r: TorrentRecord): (d: map<string, string>)
    ensures d.Keys == set h | h in CsvHeaders
    ensures forall i :: 0 <= i < |CsvHeaders| ==> d[CsvHeaders[i]] == FieldValues(r)[i]
  {
    CsvHeadersDistinct();
    ZipKeys(CsvHeaders, FieldValues(r));
    ZipPairs(CsvHeaders, FieldValues(r));
    Zip(CsvHeaders, FieldValues(r))
  }

  /** The header list has fifteen entries and no name twice. */
  lemma CsvHeadersDistinct()
    ensures |CsvHeaders| == 15
    ensures forall i, j :: 0 <= i < j < |CsvHeaders| ==> CsvHeaders[i] != CsvHeaders[j]
  {
  }

  /** A record built from a title alone has every other field empty. */
  lemma DefaultsEmpty(title: string)
    ensures FieldValues(TorrentRecord(Title := title)) == [title] + seq(14, _ => "")
  {
  }

  /** Records have no identity beyond their fields, and their fields determine them. */
  lemma {:induction false} RecordsAreValues(a: TorrentRecord, b: TorrentRecord)
    ensures a == b <==> FieldValues(a) == FieldValues(b)
    ensures FromFieldValues(FieldValues(a)) == a
  {
    if FieldValues(a) == FieldValues(b) {
      var va, vb := FieldValues(a), FieldValues(b);
      assert va[0] == vb[0] && va[1] == vb[1] && va[2] == vb[2] && va[3] == vb[3];
      assert va[14] == vb[14];
    }
  }

  /** Two records with the same dictionary are the same record. */
  lemma AsDictInjective(a: TorrentRecord, b: TorrentRecord)
    requires AsDict(a) == AsDict(b)
    ensures a == b
  {
    var va, vb := FieldValues(a), FieldValues(b);
    forall i | 0 <= i < |CsvHeaders| ensures va[i] == vb[i] {
      assert AsDict(a)[CsvHeaders[i]] == va[i];
      assert AsDict(b)[CsvHeaders[i]] == vb[i];
    }
    assert va == vb;
    RecordsAreValues(a, b);
  }
}

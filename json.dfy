/**
 * Decoded JSON as the normalisers see it: an item is a dictionary from key
 * to value, and `item.get(key, default)`, `str(value)`, `int(value)` and
 * `float(value)` are the only things done to a value.
 */
module Json {
  import opened Wrappers
  import PyText

  /**
   * One value of an item. JOther stands for every value that is neither
   * null, a boolean, an integer nor a string (a float, a list, an object)
   * and carries the text `str()` gives for it.
   */
  datatype JVal = JNull | JBool(b: bool) | JInt(i: int) | JStr(s: string) | JOther(text: string)

  /** A decoded JSON object. */
  type Item = map<string, JVal>

  /** `item.get(key, default)`. */
  function Get(item: Item, key: string, default: JVal): JVal {
    if key in item then item[key] else default
  }

  /** `str(value)`. */
  function Str(v: JVal): string {
    match v
    case JNull => "None"
    case JBool(b) => if b then "True" else "False"
    case JInt(i) => PyText.IntToString(i)
    case JStr(s) => s
    case JOther(text) => text
  }

  /** `int(value)`; None where Python raises TypeError or ValueError. */
  function ToInt(v: JVal): Option<int> {
    match v
    case JBool(b) => Some(if b then 1 else 0)
    case JInt(i) => Some(i)
    case JStr(s) => PyText.ParseInt(s)
    case _ => None
  }

  /** `float(value)`, as an exact value; None where Python raises TypeError or ValueError. */
  function ToFloat(v: JVal): Option<real> {
    match v
    case JBool(b) => Some(if b then 1.0 else 0.0)
    case JInt(i) => Some(i as real)
    case JStr(s) => PyText.ParseFloat(s)
    case _ => None
  }

  /** `str(item.get(key, ""))`: the text of the value, or "" for a missing key. */
  function GetStr(item: Item, key: string): (s: string)
    ensures key !in item ==> s == ""
    ensures key in item ==> s == Str(item[key])
  {
    Str(Get(item, key, JStr("")))
  }

  /** What `csv.writer` writes for a value: nothing for None, `str()` of anything else. */
  function CsvCell(v: JVal): string {
    if v.JNull? then "" else Str(v)
  }

  /** The key is absent or holds a string. */
  predicate TextOrAbsent(item: Item, key: string) {
    key !in item || item[key].JStr?
  }

  /** `item.get(key, default)` for a key that holds a string when present. */
  function Text(item: Item, key: string, default: string): string
    requires TextOrAbsent(item, key)
  {
    if key in item then item[key].s else default
  }

  /** `int(value)`, with the value 0 wherever int() raises (the normalisers' fallback). */
  function IntOrZero(v: JVal): int {
    match ToInt(v)
    case Some(n) => n
    case None => 0
  }

  /** `int(text)`, 0 where int() raises: how the sorts read a record's text field. */
  function NumberOrZero(text: string): int {
    IntOrZero(JStr(text))
  }

  /**
   * Converting a value to text and the text back to a number loses nothing:
   * `int(str(v))` agrees with `int(v)`, wherever `int(v)` succeeds and for
   * null and False; True (whose text "True" is no numeral) and a JOther
   * whose text reads as an integer are the exceptions.
   */
  lemma IntOrZeroOfStr(v: JVal)
    requires v.JBool? ==> !v.b
    requires v.JOther? ==> PyText.ParseInt(v.text).None?
    ensures IntOrZero(JStr(Str(v))) == IntOrZero(v)
  {
    match v
    case JInt(i) =>
      PyText.ParseIntOfIntToString(i);
    case JNull =>
      NoneIsNoInt("None");
    case JBool(_) =>
      FalseIsNoInt("False");
    case _ =>
  }

  /** `int("None")` raises ValueError. */
  lemma NoneIsNoInt(s: string)
    requires s == "None"
    ensures PyText.ParseInt(s).None?
  {
    forall i | 0 <= i < |s| ensures !PyText.IsDigit(s[i]) {
      assert s[i] == if i == 0 then 'N' else if i == 1 then 'o' else if i == 2 then 'n' else 'e';
    }
    PyText.ParseIntNeedsDigit(s);
  }

  /** `int("False")` raises ValueError. */
  lemma FalseIsNoInt(s: string)
    requires s == "False"
    ensures PyText.ParseInt(s).None?
  {
    forall i | 0 <= i < |s| ensures !PyText.IsDigit(s[i]) {
      assert s[i] == if i == 0 then 'F' else if i == 1 then 'a' else if i == 2 then 'l' else if i == 3 then 's' else 'e';
    }
    PyText.ParseIntNeedsDigit(s);
  }
}

/**
 * The response shapes of the two providers, after JSON decoding, as far as
 * the post-processing looks into them.
 */
module Payloads {
  import opened Json

  /** An EZTV item: its "title", when present, is a string. */
  type EztvItem = item: Item | TextOrAbsent(item, "title") witness map[]

  /** A TPB item: its "name" and "info_hash", when present, are strings. */
  type TpbItem = item: Item | TextOrAbsent(item, "name") && TextOrAbsent(item, "info_hash") witness map[]

  /**
   * The decoded EZTV body: an object whose "torrents" key is absent (or null)
   * or holds a list of items, or any other JSON value.
   */
  datatype EztvBody = EztvObject(torrents: Wrappers.Option<seq<EztvItem>>) | EztvNonObject

  /** One element of a TPB list: an object, or any other value. */
  datatype Entry = EntryObject(fields: TpbItem) | EntryValue(v: JVal)

  /** The decoded TPB body: a list, a single object, or a scalar (string, number, null, ...). */
  datatype TpbBody = TpbList(entries: seq<Entry>) | TpbObject(fields: TpbItem) | TpbScalar(v: JVal)
}

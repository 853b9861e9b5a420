/** `convertToCSV` (static/js/main.js:371-381): an array of records becomes a header
    line with the first record's keys and one line per record, each field wrapped
    in double quotes. Nothing inside a field is escaped. */
module Csv {
  import opened Basics

  /** The JavaScript values a record field can hold here. Numbers are integers that
      print in plain decimal; objects and arrays as field values are not part of this model. */
  datatype JsValue = Undefined | Null | Bool(b: bool) | Num(n: PlainInt) | Str(s: string)

  /** The integers `String(n)` writes in plain decimal notation: those of magnitude
      below 10^21. Larger ones print in exponent form (`1e+21`). */
  type PlainInt = n: int | -1_000_000_000_000_000_000_000 < n < 1_000_000_000_000_000_000_000

  /** A record's own properties in the order `Object.keys` lists them. */
  type JsObject = seq<(string, JsValue)>

  /** The argument: something that is not an array, or an array of records. */
  datatype Input = NotAnArray | ArrayOf(rows: seq<JsObject>)

  /** `Object.keys(o)`. */
  function Keys(o: JsObject): (ks: seq<string>)
    ensures |ks| == |o|
    ensures forall i :: 0 <= i < |o| ==> ks[i] == o[i].0
  {
    if |o| == 0 then [] else [o[0].0] + Keys(o[1..])
  }

  /** `o[key]`: the value of the own property `key`, or `undefined` when there is none. */
  function Get(o: JsObject, key: string): (v: JsValue)
    ensures v != Undefined ==> exists i :: 0 <= i < |o| && o[i] == (key, v)
    ensures (forall i :: 0 <= i < |o| ==> o[i].0 != key) ==> v == Undefined
    ensures forall i :: 0 <= i < |o| && o[i].0 == key && (forall j :: 0 <= j < i ==> o[j].0 != key) ==> v == o[i].1
  {
    if |o| == 0 then Undefined
    else if o[0].0 == key then o[0].1
    else Get(o[1..], key)
  }

  /** The values `||` treats as false. */
  predicate Falsy(v: JsValue) {
    v == Undefined || v == Null || v == Bool(false) || v == Num(0) || v == Str("")
  }

  /** The decimal digits of a natural number, without sign or leading zeros. */
  function NatToString(n: nat): (s: string)
    ensures |s| > 0 && forall i :: 0 <= i < |s| ==> IsDigit(s[i])
    decreases n
  {
    if n < 10 then [DigitChar(n)] else NatToString(n / 10) + [DigitChar(n % 10)]
  }

  /** `String(n)` for an integer. */
  function IntToString(n: int): (s: string)
    ensures |s| > 0 && forall i :: 0 <= i < |s| ==> IsDigit(s[i]) || s[i] == '-'
  {
    if n < 0 then "-" + NatToString(-n) else NatToString(n)
  }

  /** `${v}` for a value that is not falsy. */
  function Render(v: JsValue): string
    requires !Falsy(v)
  {
    match v
    case Bool(b) => "true"
    case Num(n) => IntToString(n)
    case Str(s) => s
  }

  /** What `${row[header] || ''}` puts between the quotes. */
  function Text(v: JsValue): (t: string)
    ensures t == "" <==> Falsy(v)
    ensures v.Str? && v.s != "" ==> t == v.s
    ensures v == Bool(true) ==> t == "true"
    ensures v.Num? && v.n != 0 ==> t == IntToString(v.n)
  {
    if Falsy(v) then "" else Render(v)
  }

  /** One field of a data line. */
  function Field(row: JsObject, header: string): string {
    "\"" + Text(Get(row, header)) + "\""
  }

  /** `xs.join(sep)`. */
  function Join(xs: seq<string>, sep: char): (s: string)
    ensures |xs| > 1 ==> sep in s
  {
    if |xs| == 0 then ""
    else if |xs| == 1 then xs[0]
    else xs[0] + [sep] + Join(xs[1..], sep)
  }

  function Fields(row: JsObject, headers: seq<string>): seq<string> {
    seq(|headers|, i requires 0 <= i < |headers| => Field(row, headers[i]))
  }

  /** `headers.map(header => ...).join(',')`. */
  function DataLine(row: JsObject, headers: seq<string>): string {
    Join(Fields(row, headers), ',')
  }

  function Lines(rows: seq<JsObject>): (ls: seq<string>)
    requires |rows| > 0
    ensures |ls| == |rows| + 1
  {
    var headers := Keys(rows[0]);
    [Join(headers, ',')] + seq(|rows|, i requires 0 <= i < |rows| => DataLine(rows[i], headers))
  }

  /** `convertToCSV(data)`. */
  function ConvertToCsv(data: Input): (csv: string)
    ensures csv == "" <==> data.NotAnArray? || |data.rows| == 0
  {
    if data.NotAnArray? || |data.rows| == 0 then ""
    else Join(Lines(data.rows), '\n')
  }

  /** `s.split(sep)`: the pieces between the separators, at least one. */
  function Split(s: string, sep: char): (parts: seq<string>)
    ensures |parts| > 0
    decreases |s|
  {
    var i := FirstIndex(s, IsChar(sep));
    if i == |s| then [s] else [s[..i]] + Split(s[i + 1..], sep)
  }

  function IsChar(sep: char): char -> bool {
    c => c == sep
  }

  /** Joining pieces that do not contain the separator and splitting the result again
      gives the pieces back. */
  lemma {:induction false} SplitJoin(xs: seq<string>, sep: char)
    requires |xs| > 0
    requires forall k :: 0 <= k < |xs| ==> sep !in xs[k]
    ensures Split(Join(xs, sep), sep) == xs
  {
    var s := Join(xs, sep);
    assert forall j :: 0 <= j < |xs[0]| ==> xs[0][j] != sep;
    if |xs| == 1 {
      assert FirstIndex(s, IsChar(sep)) == |s|;
    } else {
      var rest := Join(xs[1..], sep);
      assert s == xs[0] + [sep] + rest;
      assert forall j :: 0 <= j < |xs[0]| ==> s[j] == xs[0][j];
      assert s[|xs[0]|] == sep;
      assert FirstIndex(s, IsChar(sep)) == |xs[0]|;
      assert s[..|xs[0]|] == xs[0];
      assert s[|xs[0]| + 1..] == rest;
      SplitJoin(xs[1..], sep);
    }
  }

  /** No key of the first record and no text a record puts into a field contains `c`. */
  predicate Avoids(rows: seq<JsObject>, c: char)
    requires |rows| > 0
  {
    KeysAvoid(rows, c) && ValuesAvoid(rows, c)
  }

  /** No key of the first record, which become the headers, contains `c`. */
  predicate KeysAvoid(rows: seq<JsObject>, c: char)
    requires |rows| > 0
  {
    var headers := Keys(rows[0]);
    forall h :: 0 <= h < |headers| ==> c !in headers[h]
  }

  /** No text a record puts into a field contains `c`. */
  predicate ValuesAvoid(rows: seq<JsObject>, c: char)
    requires |rows| > 0
  {
    var headers := Keys(rows[0]);
    forall r, h :: 0 <= r < |rows| && 0 <= h < |headers| ==> c !in Text(Get(rows[r], headers[h]))
  }

  /** The output is the header line followed by one line per record, as long as no key
      or value brings a line break of its own. */
  lemma ConvertToCsvLines(rows: seq<JsObject>)
    requires |rows| > 0 && Avoids(rows, '\n')
    ensures var headers := Keys(rows[0]);
      var lines := Split(ConvertToCsv(ArrayOf(rows)), '\n');
      && |lines| == |rows| + 1
      && lines[0] == Join(headers, ',')
      && forall r :: 0 <= r < |rows| ==> lines[r + 1] == DataLine(rows[r], headers)
  {
    var headers := Keys(rows[0]);
    var ls := Lines(rows);
    forall k | 0 <= k < |headers| ensures '\n' !in headers[k] {
    }
    JoinAvoids(headers, ',', '\n');
    forall r | 0 <= r < |rows| ensures '\n' !in DataLine(rows[r], headers) {
      var fs := Fields(rows[r], headers);
      forall k | 0 <= k < |fs| ensures '\n' !in fs[k] {
        assert fs[k] == "\"" + Text(Get(rows[r], headers[k])) + "\"";
      }
      JoinAvoids(fs, ',', '\n');
    }
    assert forall k :: 0 <= k < |ls| ==> '\n' !in ls[k];
    SplitJoin(ls, '\n');
  }

  /** A joined line contains a character only if a piece or the separator does. */
  lemma {:induction false} JoinAvoids(xs: seq<string>, sep: char, c: char)
    requires c != sep
    requires forall k :: 0 <= k < |xs| ==> c !in xs[k]
    ensures c !in Join(xs, sep)
  {
    if |xs| > 1 {
      JoinAvoids(xs[1..], sep, c);
    }
  }

  /** A data line holds one quoted field per header, in header order, as long as no
      value brings a comma of its own. */
  lemma DataLineFields(rows: seq<JsObject>, r: nat)
    requires |rows| > 0 && r < |rows| && ValuesAvoid(rows, ',')
    ensures var headers := Keys(rows[0]);
      var parts := Split(DataLine(rows[r], headers), ',');
      headers != [] ==>
        && |parts| == |headers|
        && forall h :: 0 <= h < |headers| ==> parts[h] == "\"" + Text(Get(rows[r], headers[h])) + "\""
  {
    var headers := Keys(rows[0]);
    var fs := Fields(rows[r], headers);
    if headers != [] {
      forall k | 0 <= k < |fs| ensures ',' !in fs[k] {
        assert fs[k] == "\"" + Text(Get(rows[r], headers[k])) + "\"";
      }
      SplitJoin(fs, ',');
    }
  }

  /** A field is empty between its quotes exactly when the record has no such key or
      its value is falsy: `0`, `false`, `null` and `''` all print as `""`. */
  lemma EmptyFieldMeansFalsyOrMissing(row: JsObject, header: string)
    ensures Field(row, header) == "\"\"" <==> Falsy(Get(row, header))
    ensures (forall i :: 0 <= i < |row| ==> row[i].0 != header) ==> Field(row, header) == "\"\""
  {
    var t := Text(Get(row, header));
    assert Field(row, header) == "\"" + t + "\"";
    assert |Field(row, header)| == |t| + 2;
  }

  /** One record whose only value is a zero: the zero prints as an empty field. */
  lemma ZeroPrintsEmpty()
    ensures ConvertToCsv(ArrayOf([[("faltas", Num(0))]])) == "faltas\n\"\""
  {
    var row: JsObject := [("faltas", Num(0))];
    assert Keys(row) == ["faltas"];
    assert Field(row, "faltas") == "\"\"";
    assert Fields(row, ["faltas"]) == ["\"\""];
    assert Lines([row]) == ["faltas", "\"\""];
  }

  /** Without that proviso the line structure is lost: one record whose value holds a
      line break comes out as two data lines. */
  lemma LineBreakInValueSplitsRecord()
    ensures |Split(ConvertToCsv(ArrayOf([[("obs", Str("a\nb"))]])), '\n')| == 3
  {
    var row: JsObject := [("obs", Str("a\nb"))];
    assert Keys(row) == ["obs"];
    assert Get(row, "obs") == Str("a\nb");
    assert Text(Str("a\nb")) == "a\nb";
    assert Field(row, "obs") == "\"a\nb\"";
    assert Fields(row, ["obs"]) == ["\"a\nb\""];
    assert Lines([row]) == ["obs", "\"a\nb\""];
    var csv := ConvertToCsv(ArrayOf([row]));
    assert ["obs", "\"a\nb\""][1..] == ["\"a\nb\""];
    assert csv == "obs" + "\n" + "\"a\nb\"";
    assert ["obs", "\"a", "b\""][1..] == ["\"a", "b\""];
    assert ["\"a", "b\""][1..] == ["b\""];
    assert Join(["obs", "\"a", "b\""], '\n') == csv;
    SplitJoin(["obs", "\"a", "b\""], '\n');
  }
}

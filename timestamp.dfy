/** Choice of the creation timestamp and its split into display date and
    time (extract_metadata.py lines 100-124). */
module Timestamp {
  import opened Outcomes
  import opened Exif
  import Text

  /** The sentinel for a field that could not be derived. */
  const NotAvailable := "N/A"

  /** `exif.get(name)`. */
  function Get(exif: map<Key, Value>, name: string): Option<Value>
  {
    if Name(name) in exif then Some(exif[Name(name)]) else None
  }

  predicate Usable(o: Option<Value>)
  {
    o.Some? && Truthy(o.value)
  }

  /** `DateTimeOriginal or DateTime`, falling back to the file-system time
      (already rendered as "YYYY:MM:DD HH:MM:SS") when neither is truthy. */
  function CreationTimestamp(exif: map<Key, Value>, ctime: string): (r: Value)
    ensures ctime != "" ==> Truthy(r)
    ensures Usable(Get(exif, "DateTimeOriginal")) ==> r == exif[Name("DateTimeOriginal")]
    ensures !Usable(Get(exif, "DateTimeOriginal")) && Usable(Get(exif, "DateTime")) ==> r == exif[Name("DateTime")]
    ensures !Usable(Get(exif, "DateTimeOriginal")) && !Usable(Get(exif, "DateTime")) ==> r == Plain(Text(ctime))
  {
    var original := Get(exif, "DateTimeOriginal");
    var dateTime := Get(exif, "DateTime");
    if Usable(original) then original.value
    else if Usable(dateTime) then dateTime.value
    else Plain(Text(ctime))
  }

  /** The date token "YYYY:MM:DD" re-rendered as "DD/MM/YYYY"; a token that
      does not split into exactly three parts on ":" is kept as it is. */
  function ReformatDate(raw: string): (r: string)
    ensures Text.Count(raw, ':') != 2 ==> r == raw
    ensures Text.Count(raw, ':') == 2 ==> |r| == |raw| && ':' !in r
  {
    if ':' in raw then
      var parts := Text.Split(raw, ':');
      Text.SplitCount(raw, ':');
      if |parts| == 3 then
        Text.JoinSplit(raw, ':');
        assert parts[1..][1..] == parts[2..];
        assert Text.Join(parts[2..], ':') == parts[2];
        assert Text.Join(parts, ':') == parts[0] + [':'] + (parts[1] + [':'] + parts[2]);
        parts[2] + "/" + parts[1] + "/" + parts[0]
      else raw
    else
      Text.SplitWithout(raw, ':');
      Text.SplitCount(raw, ':');
      raw
  }

  /** The (date, time) display pair of a text timestamp. */
  function SplitText(s: string): (r: (string, string))
    ensures ' ' !in s ==> r == (NotAvailable, NotAvailable)
    ensures ' ' in s ==>
      && |r.1| < |s|
      && var raw := s[..|s| - |r.1| - 1];
      && s == raw + " " + r.1 && ' ' !in raw && r.0 == ReformatDate(raw)
  {
    if ' ' in s then
      var parts := Text.SplitOnce(s, ' ');
      if |parts| != 2 then (NotAvailable, NotAvailable)  // the ValueError branch
      else
        assert s == parts[0] + [' '] + parts[1];
        (ReformatDate(parts[0]), parts[1])
    else (NotAvailable, NotAvailable)
  }

  /** Lines 109-124 applied to the chosen timestamp value: `" " in v` is
      false for tuples and integer-keyed dictionaries, raises for a non-zero
      integer, and a GPS dictionary with a " " key has no `split`. */
  function SplitTimestamp(v: Value): (r: Result<(string, string)>)
    ensures r.Raised? <==> (v.Plain? && v.v.Integer? && v.v.n != 0) || (v.GpsTable? && Name(" ") in v.fields)
    ensures v.Plain? && v.v.Text? ==> r == Ok(SplitText(v.v.text))
    ensures !(v.Plain? && v.v.Text?) && r.Ok? ==> r.value == (NotAvailable, NotAvailable)
  {
    match v
    case Plain(Text(s)) => Ok(SplitText(s))
    case Plain(Integer(n)) => if n == 0 then Ok((NotAvailable, NotAvailable)) else Raised
    case GpsTable(f) => if Name(" ") in f then Raised else Ok((NotAvailable, NotAvailable))
    case _ => Ok((NotAvailable, NotAvailable))
  }

  /** "YYYY:MM:DD" becomes "DD/MM/YYYY". */
  lemma ReformatYearMonthDay(y: string, m: string, d: string)
    requires ':' !in y && ':' !in m && ':' !in d
    ensures ReformatDate(y + ":" + m + ":" + d) == d + "/" + m + "/" + y
  {
    var raw := y + ":" + m + ":" + d;
    assert raw == y + [':'] + (m + [':'] + d);
    Text.SplitAtFirst(y, ':', m + [':'] + d);
    Text.SplitAtFirst(m, ':', d);
    Text.SplitWithout(d, ':');
    assert Text.Split(raw, ':') == [y, m, d];
    assert raw[|y|] == ':';
  }

  /** A date token without exactly two ":" is passed through unchanged. */
  lemma ReformatOtherShapes(raw: string)
    requires Text.Count(raw, ':') != 2
    ensures ReformatDate(raw) == raw
  {
    Text.SplitCount(raw, ':');
  }

  /** The time is everything after the first space, the date the token
      before it. */
  lemma SplitAtSpace(raw: string, time: string)
    requires ' ' !in raw
    ensures SplitText(raw + " " + time) == (ReformatDate(raw), time)
  {
    var s := raw + " " + time;
    assert s[|raw|] == ' ';
    var r := SplitText(s);
    assert s[..|s| - |r.1| - 1] == raw;
  }

  /** An EXIF-style "YYYY:MM:DD HH:MM:SS" timestamp gives "DD/MM/YYYY" and
      "HH:MM:SS". */
  lemma SplitExifTimestamp(y: string, m: string, d: string, time: string)
    requires ':' !in y && ':' !in m && ':' !in d
    requires ' ' !in y && ' ' !in m && ' ' !in d
    ensures SplitText(y + ":" + m + ":" + d + " " + time) == (d + "/" + m + "/" + y, time)
  {
    var raw := y + ":" + m + ":" + d;
    assert ' ' !in raw;
    assert y + ":" + m + ":" + d + " " + time == raw + " " + time;
    SplitAtSpace(raw, time);
    ReformatYearMonthDay(y, m, d);
  }

  /** The example "2025:07:15 14:30:00". */
  lemma SplitExample(y: string, m: string, d: string, time: string)
    requires y == "2025" && m == "07" && d == "15" && time == "14:30:00"
    ensures SplitText(y + ":" + m + ":" + d + " " + time) == ("15/07/2025", "14:30:00")
  {
    SplitExifTimestamp(y, m, d, time);
    assert d + "/" + m + "/" + y == "15/07/2025";
  }
}

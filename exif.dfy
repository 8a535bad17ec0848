/** Decoding of an image's raw EXIF dictionary into named tags
    (`get_exif_data`, extract_metadata.py lines 24-38). */
module Exif {
  import opened Outcomes

  /** A decoded key: the tag's name from a tag table, or its numeric id when
      the table does not know it. */
  datatype Key = Name(name: string) | Id(id: int)

  /** A leaf EXIF value: text, a tuple of rationals, or an integer. */
  datatype Scalar = Text(text: string) | Numbers(parts: seq<real>) | Integer(n: int)

  /** A raw tag value; a nested dictionary (such as the GPS block) is kept as
      its items in iteration order. */
  datatype RawValue = RawPlain(v: Scalar) | RawTable(entries: seq<(int, Scalar)>)

  /** A decoded tag value; the GPS block becomes a dictionary keyed by GPS tag name. */
  datatype Value = Plain(v: Scalar) | Table(entries: seq<(int, Scalar)>) | GpsTable(fields: map<Key, Scalar>)

  const GpsInfoName := "GPSInfo"

  /** Python truthiness of a leaf value. */
  predicate TruthyScalar(v: Scalar)
  {
    match v
    case Text(s) => s != ""
    case Numbers(p) => p != []
    case Integer(n) => n != 0
  }

  /** Python truthiness of a decoded value. */
  predicate Truthy(v: Value)
  {
    match v
    case Plain(s) => TruthyScalar(s)
    case Table(e) => e != []
    case GpsTable(f) => f != map[]
  }

  /** `table.get(id, id)`. */
  function TagKey(table: map<int, string>, id: int): (k: Key)
    ensures k.Name? <==> id in table
    ensures k.Name? ==> k.name == table[id]
    ensures k.Id? ==> k.id == id
  {
    if id in table then Name(table[id]) else Id(id)
  }

  /** The dictionary built by storing each item under its decoded key, in
      order, so that a later item overwrites an earlier one with the same key. */
  function Relabel<V>(entries: seq<(int, V)>, table: map<int, string>): map<Key, V>
  {
    if |entries| == 0 then map[]
    else
      var last := entries[|entries| - 1];
      Relabel(entries[..|entries| - 1], table)[TagKey(table, last.0) := last.1]
  }

  /** Every item appears, under its decoded key, and nothing else does. */
  lemma {:induction false} RelabelKeys<V>(entries: seq<(int, V)>, table: map<int, string>)
    ensures Relabel(entries, table).Keys == set i | 0 <= i < |entries| :: TagKey(table, entries[i].0)
  {
    if |entries| > 0 {
      var n := |entries| - 1;
      var init := entries[..n];
      RelabelKeys(init, table);
      var lhs := Relabel(entries, table).Keys;
      var rhs := set i | 0 <= i < |entries| :: TagKey(table, entries[i].0);
      forall k | k in rhs ensures k in lhs {
        var i :| 0 <= i < |entries| && k == TagKey(table, entries[i].0);
        if i < n {
          assert k == TagKey(table, init[i].0);
        }
      }
      forall k | k in lhs ensures k in rhs {
        if k != TagKey(table, entries[n].0) {
          var i :| 0 <= i < n && k == TagKey(table, init[i].0);
          assert k == TagKey(table, entries[i].0);
        }
      }
    }
  }

  /** An item whose decoded key no later item shares keeps its value. */
  lemma {:induction false} RelabelLastWins<V>(entries: seq<(int, V)>, table: map<int, string>, i: nat)
    requires i < |entries|
    requires forall j :: i < j < |entries| ==> TagKey(table, entries[j].0) != TagKey(table, entries[i].0)
    ensures TagKey(table, entries[i].0) in Relabel(entries, table)
    ensures Relabel(entries, table)[TagKey(table, entries[i].0)] == entries[i].1
  {
    var n := |entries| - 1;
    if i < n {
      var init := entries[..n];
      assert init[i] == entries[i];
      forall j | i < j < |init| ensures TagKey(table, init[j].0) != TagKey(table, init[i].0) {
        assert init[j] == entries[j];
      }
      RelabelLastWins(init, table, i);
    }
  }

  /** Decoding of one item. A "GPSInfo" value is re-keyed through the GPS
      table; iterating over a value that is not a dictionary raises, unless it
      is an empty string or tuple, which gives an empty GPS dictionary. */
  function DecodeValue(tags: map<int, string>, gpsTags: map<int, string>, tag: int, raw: RawValue): (r: Result<Value>)
    ensures r.Raised? <==> TagKey(tags, tag) == Name(GpsInfoName) && raw.RawPlain? && (raw.v.Integer? || TruthyScalar(raw.v))
    ensures r.Ok? && TagKey(tags, tag) != Name(GpsInfoName) ==>
      (raw.RawPlain? ==> r.value == Plain(raw.v)) && (raw.RawTable? ==> r.value == Table(raw.entries))
    ensures r.Ok? && TagKey(tags, tag) == Name(GpsInfoName) ==>
      r.value.GpsTable? && r.value.fields.Keys == (if raw.RawTable? then set i | 0 <= i < |raw.entries| :: TagKey(gpsTags, raw.entries[i].0) else {})
  {
    if TagKey(tags, tag) == Name(GpsInfoName) then
      match raw
      case RawTable(e) =>
        RelabelKeys(e, gpsTags);
        Ok(GpsTable(Relabel(e, gpsTags)))
      case RawPlain(v) => if v.Integer? || TruthyScalar(v) then Raised else Ok(GpsTable(map[]))
    else
      match raw
      case RawTable(e) => Ok(Table(e))
      case RawPlain(v) => Ok(Plain(v))
  }

  /** A "GPSInfo" item whose value Python cannot iterate as a dictionary. */
  predicate UniterableGps(tags: map<int, string>, item: (int, RawValue))
  {
    TagKey(tags, item.0) == Name(GpsInfoName) && item.1.RawPlain? && (item.1.v.Integer? || TruthyScalar(item.1.v))
  }

  predicate AllDecode(entries: seq<(int, RawValue)>, tags: map<int, string>, gpsTags: map<int, string>)
  {
    forall i :: 0 <= i < |entries| ==> DecodeValue(tags, gpsTags, entries[i].0, entries[i].1).Ok?
  }

  /** The items with their values decoded, in their original order. */
  function Decoded(entries: seq<(int, RawValue)>, tags: map<int, string>, gpsTags: map<int, string>): (r: seq<(int, Value)>)
    requires AllDecode(entries, tags, gpsTags)
    ensures |r| == |entries|
    ensures forall i :: 0 <= i < |entries| ==> r[i] == (entries[i].0, DecodeValue(tags, gpsTags, entries[i].0, entries[i].1).value)
  {
    seq(|entries|, i requires 0 <= i < |entries| && AllDecode(entries, tags, gpsTags) =>
      (entries[i].0, DecodeValue(tags, gpsTags, entries[i].0, entries[i].1).value))
  }

  /** What `get_exif_data` returns for the dictionary `image._getexif()`
      gives (`None` when the image has no EXIF block). */
  function DecodeExif(info: Option<seq<(int, RawValue)>>, tags: map<int, string>, gpsTags: map<int, string>): Result<map<Key, Value>>
  {
    match info
    case None => Ok(map[])
    case Some(entries) =>
      if AllDecode(entries, tags, gpsTags) then Ok(Relabel(Decoded(entries, tags, gpsTags), tags)) else Raised
  }

  /** `get_exif_data`: fills the decoded dictionary item by item. */
  method GetExifData(info: Option<seq<(int, RawValue)>>, tags: map<int, string>, gpsTags: map<int, string>)
    returns (r: Result<map<Key, Value>>)
    ensures r == DecodeExif(info, tags, gpsTags)
    ensures info.None? || info == Some([]) ==> r == Ok(map[])
  {
    var exifData: map<Key, Value> := map[];
    if info.Some? {
      var entries := info.value;
      for k := 0 to |entries|
        invariant AllDecode(entries[..k], tags, gpsTags)
        invariant exifData == Relabel(Decoded(entries[..k], tags, gpsTags), tags)
      {
        var (tag, value) := entries[k];
        var decoded := TagKey(tags, tag);
        var item: Value;
        if decoded == Name(GpsInfoName) {
          match value
          case RawTable(sub) =>
            var gpsData: map<Key, Scalar> := map[];
            for j := 0 to |sub|
              invariant gpsData == Relabel(sub[..j], gpsTags)
            {
              assert sub[..j + 1][..j] == sub[..j];
              gpsData := gpsData[TagKey(gpsTags, sub[j].0) := sub[j].1];
            }
            assert sub[..|sub|] == sub;
            item := GpsTable(gpsData);
          case RawPlain(v) =>
            if v.Integer? || TruthyScalar(v) {
              assert !DecodeValue(tags, gpsTags, entries[k].0, entries[k].1).Ok?;
              return Raised;
            }
            item := GpsTable(map[]);
        } else {
          item := match value case RawTable(e) => Table(e) case RawPlain(v) => Plain(v);
        }
        assert DecodeValue(tags, gpsTags, tag, value) == Ok(item);
        var before := entries[..k];
        var after := entries[..k + 1];
        assert after[..k] == before;
        assert AllDecode(after, tags, gpsTags);
        assert Decoded(after, tags, gpsTags)[..k] == Decoded(before, tags, gpsTags);
        exifData := exifData[decoded := item];
      }
      assert entries[..|entries|] == entries;
    }
    r := Ok(exifData);
  }

  /** Decoding fails exactly when some item is a "GPSInfo" tag whose value
      cannot be iterated as a dictionary. */
  lemma DecodeExifRaises(info: Option<seq<(int, RawValue)>>, tags: map<int, string>, gpsTags: map<int, string>)
    ensures DecodeExif(info, tags, gpsTags).Raised? <==>
      (info.Some? && exists i :: 0 <= i < |info.value| && UniterableGps(tags, info.value[i]))
  {
    if info.Some? && !AllDecode(info.value, tags, gpsTags) {
      var i :| 0 <= i < |info.value| && !DecodeValue(tags, gpsTags, info.value[i].0, info.value[i].1).Ok?;
    }
  }

  /** Every raw tag appears under its table name, or under its numeric id
      when the table does not know it, and no other key appears. */
  lemma DecodeExifKeys(entries: seq<(int, RawValue)>, tags: map<int, string>, gpsTags: map<int, string>)
    requires DecodeExif(Some(entries), tags, gpsTags).Ok?
    ensures DecodeExif(Some(entries), tags, gpsTags).value.Keys == set i | 0 <= i < |entries| :: TagKey(tags, entries[i].0)
  {
    var d := Decoded(entries, tags, gpsTags);
    RelabelKeys(d, tags);
    assert (set i | 0 <= i < |d| :: TagKey(tags, d[i].0)) == set i | 0 <= i < |entries| :: TagKey(tags, entries[i].0) by {
      forall i | 0 <= i < |entries| ensures d[i].0 == entries[i].0 { }
    }
  }

  /** A tag whose decoded key no later tag shares holds its decoded value; for
      the "GPSInfo" tag that is its sub-dictionary re-keyed through the GPS table. */
  lemma DecodeExifValue(entries: seq<(int, RawValue)>, tags: map<int, string>, gpsTags: map<int, string>, i: nat)
    requires DecodeExif(Some(entries), tags, gpsTags).Ok?
    requires i < |entries|
    requires forall j :: i < j < |entries| ==> TagKey(tags, entries[j].0) != TagKey(tags, entries[i].0)
    ensures TagKey(tags, entries[i].0) in DecodeExif(Some(entries), tags, gpsTags).value
    ensures DecodeExif(Some(entries), tags, gpsTags).value[TagKey(tags, entries[i].0)]
         == DecodeValue(tags, gpsTags, entries[i].0, entries[i].1).value
    ensures TagKey(tags, entries[i].0) == Name(GpsInfoName) && entries[i].1.RawTable? ==>
      DecodeExif(Some(entries), tags, gpsTags).value[Name(GpsInfoName)] == GpsTable(Relabel(entries[i].1.entries, gpsTags))
    ensures TagKey(tags, entries[i].0) != Name(GpsInfoName) && entries[i].1.RawPlain? ==>
      DecodeExif(Some(entries), tags, gpsTags).value[TagKey(tags, entries[i].0)] == Plain(entries[i].1.v)
  {
    var d := Decoded(entries, tags, gpsTags);
    forall j | i < j < |d| ensures TagKey(tags, d[j].0) != TagKey(tags, d[i].0) {
    }
    RelabelLastWins(d, tags, i);
  }
}

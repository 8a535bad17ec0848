/** The extraction loop `extract_metadata` (extract_metadata.py lines
    76-153): one record per image file of the directory listing, in listing
    order, files that raise being skipped. */
module Extract {
  import opened Outcomes
  import opened Exif
  import Text
  import Gps
  import Geocode
  import FileSize
  import Timestamp

  /** What opening a file as an image gives: its pixel size, its size on
      disk, the raw EXIF dictionary (`None` when there is none) and the DPI hint. */
  datatype ImageInfo = ImageInfo(width: nat, height: nat, fileSize: nat,
                                 exif: Option<seq<(int, RawValue)>>, dpi: Option<(real, real)>)

  /** One directory entry with everything the loop learns about it from
      outside: whether the image opened, what the reverse lookup of its
      position gives, and its file-system creation time, already rendered as
      "YYYY:MM:DD HH:MM:SS". */
  datatype Entry = Entry(name: string, image: Result<ImageInfo>, lookup: Geocode.Lookup, ctime: string)

  datatype Coords = Coords(lat: real, lon: real)

  /** "<x>x<y> dpi" (the rendering is not modelled) or "N/A". */
  datatype Resolution = Dpi(x: real, y: real) | ResolutionNotAvailable

  /** One element of the output array. */
  datatype ImageRecord = ImageRecord(
    name: string,
    width: nat,
    height: nat,
    resolution: Resolution,
    size: FileSize.SizeText,
    position: Option<Coords>,
    place: Option<string>,
    createdAt: Value,
    date: string,
    time: string)

  const ImageExtensions: seq<string> := [".png", ".jpg", ".jpeg", ".tiff", ".bmp", ".gif"]

  /** `filename.lower().endswith((...))`. */
  predicate IsImageName(name: string)
    ensures IsImageName(name) ==> |name| >= 4
  {
    exists ext :: ext in ImageExtensions && Text.EndsWith(Text.Lower(name), ext)
  }

  /** The extension filter ignores case: a name passes iff its lower-cased
      form does. */
  lemma ImageNameIgnoresCase(name: string)
    ensures IsImageName(name) <==> IsImageName(Text.Lower(name))
  {
    Text.LowerIdempotent(name);
  }

  /** `f"{int(dpi[0])}x{int(dpi[1])} dpi" if dpi else "N/A"`, unrendered. */
  function ResolutionOf(dpi: Option<(real, real)>): (r: Resolution)
    ensures r.Dpi? <==> dpi.Some?
    ensures r.Dpi? ==> (r.x, r.y) == dpi.value
  {
    match dpi
    case Some(d) => Dpi(d.0, d.1)
    case None => ResolutionNotAvailable
  }

  /** The body of the `try` block for one image file: its record, or `None`
      when something in it raised. */
  function RecordOf(e: Entry, tags: map<int, string>, gpsTags: map<int, string>): (r: Option<ImageRecord>)
    ensures r.Some? <==>
      && e.image.Ok?
      && DecodeExif(e.image.value.exif, tags, gpsTags).Ok?
      && Gps.GetLatLon(DecodeExif(e.image.value.exif, tags, gpsTags).value).Ok?
      && Timestamp.SplitTimestamp(Timestamp.CreationTimestamp(DecodeExif(e.image.value.exif, tags, gpsTags).value, e.ctime)).Ok?
    ensures r.Some? ==> r.value.name == e.name
    ensures r.Some? && r.value.position.None? ==> r.value.place.None?
    ensures r.Some? && r.value.position.Some? ==> r.value.place == Geocode.LocationName(e.lookup)
    ensures e.image.Raised? ==> r.None?
    ensures r.Some? && r.value.createdAt.Plain? && r.value.createdAt.v.Text? ==>
      (r.value.date, r.value.time) == Timestamp.SplitText(r.value.createdAt.v.text)
  {
    match e.image
    case Raised => None
    case Ok(img) =>
      match DecodeExif(img.exif, tags, gpsTags)
      case Raised => None
      case Ok(exif) =>
        match Gps.GetLatLon(exif)
        case Raised => None
        case Ok(latLon) =>
          var createdAt := Timestamp.CreationTimestamp(exif, e.ctime);
          match Timestamp.SplitTimestamp(createdAt)
          case Raised => None
          case Ok(dateTime) =>
            var position := if latLon.0.Some? && latLon.1.Some? then Some(Coords(latLon.0.value, latLon.1.value)) else None;
            var place := if position.Some? then Geocode.LocationName(e.lookup) else None;
            Some(ImageRecord(e.name, img.width, img.height, ResolutionOf(img.dpi), FileSize.SizeOf(img.fileSize),
                             position, place, createdAt, dateTime.0, dateTime.1))
  }

  /** Every field of a record comes from the step of the `try` body that
      computes it: the pixel size and DPI of the image, the formatted file
      size, the chosen timestamp and its split, and the `get_lat_lon` pair as
      the position. */
  lemma RecordFields(e: Entry, tags: map<int, string>, gpsTags: map<int, string>)
    ensures var r := RecordOf(e, tags, gpsTags);
      r.Some? ==>
      var img := e.image.value;
      var exif := DecodeExif(img.exif, tags, gpsTags).value;
      var latLon := Gps.GetLatLon(exif).value;
      && r.value.width == img.width && r.value.height == img.height
      && r.value.size == FileSize.SizeOf(img.fileSize)
      && r.value.resolution == ResolutionOf(img.dpi)
      && r.value.createdAt == Timestamp.CreationTimestamp(exif, e.ctime)
      && r.value.position == (if latLon.0.Some? then Some(Coords(latLon.0.value, latLon.1.value)) else None)
      && (r.value.date, r.value.time) == Timestamp.SplitTimestamp(r.value.createdAt).value
  {
  }

  /** The entry passes the extension filter and its processing does not raise. */
  predicate Kept(e: Entry, tags: map<int, string>, gpsTags: map<int, string>)
  {
    IsImageName(e.name) && RecordOf(e, tags, gpsTags).Some?
  }

  /** The records collected from a listing, in listing order. */
  function Records(listing: seq<Entry>, tags: map<int, string>, gpsTags: map<int, string>): (r: seq<ImageRecord>)
    ensures |r| <= |listing|
  {
    if |listing| == 0 then []
    else
      var n := |listing| - 1;
      var init := Records(listing[..n], tags, gpsTags);
      init + (if Kept(listing[n], tags, gpsTags) then [RecordOf(listing[n], tags, gpsTags).value] else [])
  }

  /** `extract_metadata`: `None` when the directory does not exist (nothing
      is written), otherwise the array written to the output file. */
  method ExtractMetadata(directoryExists: bool, listing: seq<Entry>, tags: map<int, string>, gpsTags: map<int, string>)
    returns (output: Option<seq<ImageRecord>>)
    ensures output == if directoryExists then Some(Records(listing, tags, gpsTags)) else None
  {
    if !directoryExists {
      return None;
    }
    var results: seq<ImageRecord> := [];
    for k := 0 to |listing|
      invariant results == Records(listing[..k], tags, gpsTags)
    {
      assert listing[..k + 1][..k] == listing[..k];
      var entry := listing[k];
      if IsImageName(entry.name) {
        var metadata := ProcessFile(entry, tags, gpsTags);
        if metadata.Some? {
          results := results + [metadata.value];
        }
      }
    }
    assert listing[..|listing|] == listing;
    output := Some(results);
  }

  /** The `try` block for one image file, step by step: `None` when a step raised. */
  method ProcessFile(entry: Entry, tags: map<int, string>, gpsTags: map<int, string>) returns (metadata: Option<ImageRecord>)
    ensures metadata == RecordOf(entry, tags, gpsTags)
    ensures metadata.Some? ==> metadata.value.name == entry.name && metadata.value.size == FileSize.SizeOf(entry.image.value.fileSize)
  {
    if entry.image.Raised? {
      return None;
    }
    var img := entry.image.value;
    var exif := GetExifData(img.exif, tags, gpsTags);
    if exif.Raised? {
      return None;
    }
    var latLon := Gps.GetLatLon(exif.value);
    if latLon.Raised? {
      return None;
    }
    var resolution := ResolutionOf(img.dpi);
    var createdAt := Timestamp.CreationTimestamp(exif.value, entry.ctime);
    var dateTime := Timestamp.SplitTimestamp(createdAt);
    if dateTime.Raised? {
      return None;
    }
    var position: Option<Coords> := None;
    var place: Option<string> := None;
    if latLon.value.0.Some? && latLon.value.1.Some? {
      position := Some(Coords(latLon.value.0.value, latLon.value.1.value));
      place := Geocode.LocationName(entry.lookup);
    }
    var size := FileSize.FormatSize(img.fileSize);
    metadata := Some(ImageRecord(entry.name, img.width, img.height, resolution, size,
                                 position, place, createdAt, dateTime.value.0, dateTime.value.1));
  }

  /** Every record comes from a kept entry of the listing. */
  lemma {:induction false} RecordsSound(listing: seq<Entry>, tags: map<int, string>, gpsTags: map<int, string>, x: ImageRecord)
    requires x in Records(listing, tags, gpsTags)
    ensures exists i :: 0 <= i < |listing| && Kept(listing[i], tags, gpsTags) && RecordOf(listing[i], tags, gpsTags) == Some(x)
  {
    var n := |listing| - 1;
    if x in Records(listing[..n], tags, gpsTags) {
      RecordsSound(listing[..n], tags, gpsTags, x);
      var i :| 0 <= i < n && Kept(listing[..n][i], tags, gpsTags) && RecordOf(listing[..n][i], tags, gpsTags) == Some(x);
      assert listing[..n][i] == listing[i];
    } else {
      assert Kept(listing[n], tags, gpsTags) && RecordOf(listing[n], tags, gpsTags) == Some(x);
    }
  }

  /** Processing is independent per entry: the records of a concatenated
      listing are the records of each part, in order. */
  lemma {:induction false} RecordsAppend(a: seq<Entry>, b: seq<Entry>, tags: map<int, string>, gpsTags: map<int, string>)
    ensures Records(a + b, tags, gpsTags) == Records(a, tags, gpsTags) + Records(b, tags, gpsTags)
  {
    if |b| == 0 {
      assert a + b == a;
    } else {
      var n := |b| - 1;
      assert (a + b)[..|a + b| - 1] == a + b[..n];
      RecordsAppend(a, b[..n], tags, gpsTags);
    }
  }

  /** Every kept entry contributes its record, and the others contribute
      nothing: a failing entry does not stop the entries after it. */
  lemma RecordsOfOne(e: Entry, tags: map<int, string>, gpsTags: map<int, string>)
    ensures Records([e], tags, gpsTags) == if Kept(e, tags, gpsTags) then [RecordOf(e, tags, gpsTags).value] else []
  {
    assert [e][..0] == [];
  }

  /** Every kept entry's record is in the output. */
  lemma {:induction false} RecordsComplete(listing: seq<Entry>, tags: map<int, string>, gpsTags: map<int, string>, i: nat)
    requires i < |listing| && Kept(listing[i], tags, gpsTags)
    ensures RecordOf(listing[i], tags, gpsTags).value in Records(listing, tags, gpsTags)
  {
    var n := |listing| - 1;
    var init := Records(listing[..n], tags, gpsTags);
    var x := RecordOf(listing[i], tags, gpsTags).value;
    assert init <= Records(listing, tags, gpsTags);
    if i < n {
      assert listing[..n][i] == listing[i];
      RecordsComplete(listing[..n], tags, gpsTags, i);
      assert x in init;
    } else {
      assert Records(listing, tags, gpsTags) == init + [x];
    }
  }

  /** The outcome of the reverse lookup never decides whether a record is
      produced, nor any field but the place. */
  lemma LookupOnlyAffectsPlace(e: Entry, lookup: Geocode.Lookup, tags: map<int, string>, gpsTags: map<int, string>)
    ensures var r, r' := RecordOf(e, tags, gpsTags), RecordOf(e.(lookup := lookup), tags, gpsTags);
      r.Some? == r'.Some? && (r.Some? ==> r'.value == r.value.(place := r'.value.place))
  {
  }

  /** A failed or empty lookup leaves any record without a place. */
  lemma FailedLookupNoPlace(e: Entry, tags: map<int, string>, gpsTags: map<int, string>)
    requires e.lookup.LookupError? || e.lookup.NoMatch?
    ensures var r := RecordOf(e, tags, gpsTags);
      r.Some? ==> r.value.place.None?
  {
  }

  /** An image whose GPS block has both coordinates as tuples of at least
      three numbers gets the signed decimal position of lines 57-62. */
  lemma FullGpsPosition(e: Entry, tags: map<int, string>, gpsTags: map<int, string>)
    requires e.image.Ok? && DecodeExif(e.image.value.exif, tags, gpsTags).Ok?
    requires var exif := DecodeExif(e.image.value.exif, tags, gpsTags).value;
      && Gps.HasFullGps(exif)
      && var g := exif[Name(GpsInfoName)].fields;
      && var lat, lon := Gps.Field(g, Gps.LatitudeName).value, Gps.Field(g, Gps.LongitudeName).value;
      && lat.Numbers? && |lat.parts| >= 3 && lon.Numbers? && |lon.parts| >= 3
    ensures var exif := DecodeExif(e.image.value.exif, tags, gpsTags).value;
      var g := exif[Name(GpsInfoName)].fields;
      var lat, lon := Gps.Field(g, Gps.LatitudeName).value, Gps.Field(g, Gps.LongitudeName).value;
      var r := RecordOf(e, tags, gpsTags);
      r.Some? ==>
        r.value.position == Some(Coords(
          Gps.Signed(Gps.Degrees(lat.parts[0], lat.parts[1], lat.parts[2]), Gps.Field(g, Gps.LatitudeRefName).value, "N"),
          Gps.Signed(Gps.Degrees(lon.parts[0], lon.parts[1], lon.parts[2]), Gps.Field(g, Gps.LongitudeRefName).value, "E")))
  {
    Gps.CoordinatesFromFields(DecodeExif(e.image.value.exif, tags, gpsTags).value);
  }

  /** An image whose GPS block lacks one of the four coordinate fields gets
      neither a position nor a place. */
  lemma IncompleteGpsNoPosition(e: Entry, tags: map<int, string>, gpsTags: map<int, string>)
    requires e.image.Ok? && DecodeExif(e.image.value.exif, tags, gpsTags).Ok?
    requires !Gps.HasFullGps(DecodeExif(e.image.value.exif, tags, gpsTags).value)
    ensures var r := RecordOf(e, tags, gpsTags);
      r.Some? ==> r.value.position.None? && r.value.place.None?
  {
    Gps.MissingFieldNoPosition(DecodeExif(e.image.value.exif, tags, gpsTags).value);
  }

  /** Three readable images and one that fails to open, in that order, give
      exactly the three records in listing order. */
  lemma ThreeImagesAndACorruptOne(e1: Entry, e2: Entry, e3: Entry, bad: Entry, tags: map<int, string>, gpsTags: map<int, string>)
    requires Kept(e1, tags, gpsTags) && Kept(e2, tags, gpsTags) && Kept(e3, tags, gpsTags)
    requires bad.image.Raised?
    ensures Records([e1, e2, e3, bad], tags, gpsTags)
         == [RecordOf(e1, tags, gpsTags).value, RecordOf(e2, tags, gpsTags).value, RecordOf(e3, tags, gpsTags).value]
  {
    RecordsAppend([e1, e2, e3], [bad], tags, gpsTags);
    RecordsAppend([e1, e2], [e3], tags, gpsTags);
    RecordsAppend([e1], [e2], tags, gpsTags);
    assert [e1, e2, e3] + [bad] == [e1, e2, e3, bad];
    assert [e1, e2] + [e3] == [e1, e2, e3];
    assert [e1] + [e2] == [e1, e2];
    RecordsOfOne(e1, tags, gpsTags);
    RecordsOfOne(e2, tags, gpsTags);
    RecordsOfOne(e3, tags, gpsTags);
    RecordsOfOne(bad, tags, gpsTags);
  }
}

# Image metadata extraction and query — a Dafny model

This project models the core of a small photo-catalogue tool. A batch extractor
(`extract_metadata.py`) walks a directory of images. For each image file it builds
one metadata record: pixel size, a human-readable file size, GPS position, a
locality name from reverse geocoding, the creation timestamp, and its display date
and time. It writes all records to a JSON file. A web layer (`app.py`) reads that
file and answers two queries: the records of one date, and the sorted list of
distinct dates.

The model has nine modules, one per component:

- `Outcomes` (outcomes.dfy): `Option`, and `Result` for "the step raised".
- `Text` (text.dfy): the `str` operations the code uses: `split`, `split(sep, 1)`, `lower`, `endswith`. `Join` is not used by the code. It is the inverse of splitting and states what `JoinSplit` and `SplitOnce` promise.
- `Exif` (exif.dfy): `get_exif_data`, as an imperative method with nested loops, proved against `DecodeExif`.
- `Gps` (gps.dfy): `convert_to_degrees` and `get_lat_lon`.
- `Geocode` (geocode.dfy): the locality choice of `get_location_name`. The network lookup is reduced to its outcome (`Found(address)`, `NoMatch`, `LookupError`).
- `FileSize` (file_size.dfy): `format_size`, as a method with its `while` loop, proved against `SizeOf`.
- `Timestamp` (timestamp.dfy): timestamp selection and date/time splitting (lines 100-124).
- `Extract` (extract.dfy): the extraction loop, as a method that appends to a sequence, proved against `Records`.
- `Query` (query.dfy): `get_images_data` and `get_dates`, as pure functions.

Modelling choices:

- Python exceptions raised inside the per-file `try` block become `Result.Raised`. The file is then skipped.
- Dictionaries whose iteration order matters are kept as sequences of items in iteration order: the raw EXIF dictionary and the GPS sub-dictionary. When two items decode to the same key, the later one wins (`Relabel`).
- Real numbers stand in for Python floats. Dividing by 1024 is exact in binary floating point, so `format_size` picks the same unit as the integer test `size >= 1024^k`.
- The file system, PIL, and the geocoder are inputs. Each directory entry carries:
  - whether the steps of the `try` body that read the file succeeded, and if so the image's pixel size, file size, raw EXIF, and DPI. `image` is `Raised` whenever any step of that body raises, other than the geocoding error that `get_location_name` catches itself. That covers `Image.open` failing, `os.path.getsize` or `os.path.getctime` raising, and `int(dpi[...])` raising. It also covers a missing `_getexif` method: Pillow defines `_getexif` only on some image classes (JPEG, PNG, WebP), so a GIF, BMP or TIFF file that opens fine is still skipped. `exif: None` stands for `_getexif()` returning `None`;
  - the outcome of its reverse lookup;
  - its creation time, already rendered as "YYYY:MM:DD HH:MM:SS".
- Behaviour of the code that the model keeps as written:
  - A missing image directory returns before the output file is written. `ExtractMetadata` returns `None` ("no output"), not an empty list.
  - The sentinel for a missing date, time or resolution is the string "N/A".
  - The locality is `city or town or village or hamlet or county`. Python returns the last operand of an `or` chain when none is truthy. So when only `county` is present and it is empty, the locality is `""`, not `None` (`Geocode.LocationNameAbsent`).
  - The date list contains "N/A" when some record has that sentinel date. It is non-empty, so `get_dates` keeps it.

## Model

| member | source | states |
|---|---|---|
| Exif.TagKey | extract_metadata.py:29-33 | `table.get(id, id)`: the table's name for a known id, otherwise the id itself. |
| Exif.DecodeValue | extract_metadata.py:29-37 | One item raises iff it is "GPSInfo" with a plain value that is an integer or non-empty. A "GPSInfo" dictionary becomes a GPS dictionary keyed by the GPS names of its ids. Every other value passes through unchanged. |
| Exif.GetExifData | extract_metadata.py:24-38 | The method's nested loops build exactly `DecodeExif`. No EXIF info (or an empty dictionary) gives an empty map. |
| Exif.DecodeExifKeys | extract_metadata.py:28-37 | Every raw tag appears under its table name, or under its numeric id when the table does not know it. No other key appears. |
| Exif.DecodeExifValue | extract_metadata.py:28-37 | A tag holds its value unless a later tag has the same decoded key. "GPSInfo" holds its sub-dictionary re-keyed through the separate GPS table. Other plain values pass through unchanged. |
| Exif.DecodeExifRaises | extract_metadata.py:30-35 | Decoding raises exactly when a "GPSInfo" value cannot be iterated as a dictionary: an integer (0 included), or a non-empty string or tuple. |
| Exif.RelabelKeys | extract_metadata.py:32-34 | Filling a dictionary item by item keys it by the decoded ids of all items and by nothing else. |
| Exif.RelabelLastWins | extract_metadata.py:32-34 | An item whose decoded key no later item shares keeps its value. |
| Gps.ConvertToDegrees | extract_metadata.py:40-44 | Conversion succeeds iff the value is a tuple of at least three numbers. With non-negative minutes and seconds, the result is at least the degrees. |
| Gps.GetLatLon | extract_metadata.py:46-63 | Latitude and longitude are both set or both `None`. When they are set, the GPS block has all four coordinate fields. |
| Gps.MissingFieldNoPosition | extract_metadata.py:46-63 | Without GPSInfo, or without a truthy value for any one of GPSLatitude, GPSLatitudeRef, GPSLongitude, GPSLongitudeRef, the result is (None, None). The one exception: a non-dictionary GPSInfo, on which `.get` raises. |
| Gps.CoordinatesFromFields | extract_metadata.py:40-62 | With all four fields present, conversion succeeds iff both coordinates are tuples of at least three numbers. Each coordinate is d + m/60 + s/3600. Latitude is negated unless its ref is "N", longitude unless its ref is "E". |
| Gps.SignedMagnitude | extract_metadata.py:57-62 | The sign rule keeps the magnitude. The result is negative iff the magnitude is positive and the ref is not the positive hemisphere. |
| Gps.DegreesRoundTrip | extract_metadata.py:40-44 | Converting whole degrees, whole minutes below 60 and seconds below 60 to decimal degrees, then back, recovers all three. |
| Geocode.FirstTruthy | extract_metadata.py:18 | The `or` chain yields the first truthy field, and a truthy field exists iff the result is truthy. Otherwise it yields the last field's value. |
| Geocode.LocationName | extract_metadata.py:12-22 | A failed or empty lookup gives `None`. A locality that is present is the value of one of city, town, village, hamlet, county in the address. |
| Geocode.LocationNameFirstNonEmpty | extract_metadata.py:16-19 | The locality is the first non-empty of city, town, village, hamlet, county. |
| Geocode.LocationNameAbsent | extract_metadata.py:12-22 | The locality is absent iff the lookup failed or found nothing, or no locality field is set and there is no county. It is empty or absent iff no field is non-empty. |
| FileSize.FormatSize | extract_metadata.py:65-74 | The loop returns `SizeOf(size)`. Size 0 gives exactly "0 B". Otherwise the unit is one of B..TB and the amount is at least 1, and below 1024 unless the unit is TB. |
| FileSize.SizeOfBounds | extract_metadata.py:65-74 | For a positive size, the amount is in [1, 1024) except for TB. Multiplying it back by the unit gives the byte count. |
| FileSize.UnitIndexBelow | extract_metadata.py:71-73 | The chosen unit index i is at most 4 and satisfies 1024^i <= size. Unless i is 4 (TB), size < 1024^(i+1). |
| FileSize.UnitIndexUnique | extract_metadata.py:71-73 | Only one unit index satisfies those bounds. |
| Timestamp.CreationTimestamp | extract_metadata.py:100-105 | DateTimeOriginal if truthy, else DateTime if truthy, else the file-system time string. The result is truthy when that string is non-empty. |
| Timestamp.SplitText | extract_metadata.py:109-124 | With no space, date and time are both "N/A". Otherwise the time is everything after the first space, and the date is the reformatted token before it. The ValueError fallback is never taken. |
| Timestamp.SplitTimestamp | extract_metadata.py:109-124 | The split raises iff the timestamp is a non-zero integer, or a GPS dictionary with a " " key. A text timestamp gives `SplitText` of it. Any other value gives ("N/A", "N/A"). |
| Timestamp.SplitAtSpace | extract_metadata.py:111-113 | For a date token without spaces, splitting "token time" gives the reformatted token and the time. |
| Timestamp.ReformatDate | extract_metadata.py:114-122 | A token with exactly two ":" is re-rendered with the same length and no ":" left. Any other token is kept unchanged. |
| Timestamp.ReformatYearMonthDay | extract_metadata.py:115-118 | A date token "Y:M:D" (parts without ":") becomes "D/M/Y". |
| Timestamp.ReformatOtherShapes | extract_metadata.py:115-122 | A date token without exactly two ":" is kept unchanged. |
| Timestamp.SplitExifTimestamp | extract_metadata.py:109-124 | "Y:M:D time" becomes ("D/M/Y", time). |
| Timestamp.SplitExample | extract_metadata.py:107-118 | "2025:07:15 14:30:00" becomes ("15/07/2025", "14:30:00"). |
| Text.Split | extract_metadata.py:116 | `str.split(":")` yields at least one piece, and no piece contains the separator. |
| Text.SplitCount | extract_metadata.py:116-117 | There is one more piece than there are separators. |
| Text.JoinSplit | extract_metadata.py:116 | Joining the pieces with the separator restores the string. |
| Text.SplitAtFirst | extract_metadata.py:116 | The first separator ends the first piece. |
| Text.SplitOnce | extract_metadata.py:113 | `split(" ", 1)` yields two pieces iff there is a space. The first piece has no space, and joining the pieces restores the string. |
| Text.IndexOf | extract_metadata.py:113 | The first occurrence of the separator is at the returned index, and none comes before it. |
| Text.Lower | extract_metadata.py:84 | Lower-casing keeps the length and lowers each character. |
| Text.LowerIdempotent | extract_metadata.py:84 | Lower-casing twice is lower-casing once. |
| Extract.IsImageName | extract_metadata.py:84 | A name that passes the extension filter has at least four characters, the length of the shortest extension. |
| Text.EndsWith | extract_metadata.py:84 | `s.endswith(suffix)` holds iff `s` is some string followed by `suffix`. |
| Extract.ResolutionOf | extract_metadata.py:95-96 | The resolution is the DPI pair iff the image reports one, and "N/A" otherwise. |
| Extract.ImageNameIgnoresCase | extract_metadata.py:84 | The extension filter ignores case: a name passes iff its lower-cased form does. |
| Extract.RecordOf | extract_metadata.py:86-148 | There is a record iff the file opens, its EXIF decodes, `get_lat_lon` does not raise and the timestamp split does not raise. A record carries its file name. The place is set only when the position is set, and then it is the locality of the lookup. A text creation timestamp gives the record's date and time through `SplitText`. |
| Extract.RecordFields | extract_metadata.py:87-130 | A record has the image's width, height and DPI, the `format_size` text of the file size, the chosen creation timestamp with its split date and time, and the `get_lat_lon` pair as its position. |
| Extract.FullGpsPosition | extract_metadata.py:56-129 | An image whose GPS block has both coordinates as tuples of at least three numbers gets the position (signed d + m/60 + s/3600 of latitude, of longitude). |
| Extract.ProcessFile | extract_metadata.py:86-148 | The step-by-step `try` body yields exactly `RecordOf`, with `FormatSize`'s size text. |
| Extract.Records | extract_metadata.py:83-146 | The output has at most one record per listing entry. |
| Extract.ExtractMetadata | extract_metadata.py:76-153 | A missing directory gives no output. Otherwise the loop's list is `Records` of the listing. |
| Extract.RecordsAppend | extract_metadata.py:83-148 | Entries are processed independently and in listing order: records of a concatenation are the concatenated records. |
| Extract.RecordsOfOne | extract_metadata.py:84-148 | One entry contributes its record iff it passes the extension filter and does not raise, else nothing. |
| Extract.RecordsComplete | extract_metadata.py:83-146 | Every kept entry's record is in the output. |
| Extract.RecordsSound | extract_metadata.py:83-146 | Every output record is the record of some kept entry. |
| Extract.LookupOnlyAffectsPlace | extract_metadata.py:126-130 | The reverse-lookup outcome never decides whether a record is produced. It changes only the place field. |
| Extract.FailedLookupNoPlace | extract_metadata.py:126-130 | A lookup error or empty result leaves any record without a place. Whether the record exists is `LookupOnlyAffectsPlace`. |
| Extract.IncompleteGpsNoPosition | extract_metadata.py:92-130 | An image missing any of the four GPS coordinate fields gets neither a position nor a place. |
| Extract.ThreeImagesAndACorruptOne | extract_metadata.py:83-148 | Three readable images followed by one that fails to open give exactly three records, in listing order. |
| Query.WithDate | app.py:23 | The filtered list is no longer than the data. Every element has the filter's date and comes from the data. |
| Query.WithDateCount | app.py:22-23 | Filtering keeps each record with the date as many times as it occurs, and no other record. |
| Query.WithDateAppend | app.py:23 | Filtering keeps the original order: it distributes over concatenation. |
| Query.ImagesData | app.py:16-26 | A missing file gives []. An absent or empty filter returns all records unchanged. Otherwise the result is exactly the records with that date. |
| Query.Below | app.py:34 | Python's `<` on strings: code-point order, with a proper prefix smaller. No string is below itself. |
| Query.BelowIrreflexive | app.py:34 | No string is below itself. |
| Query.BelowTransitive | app.py:34 | The order is transitive. |
| Query.BelowTotal | app.py:34 | Any two different strings are ordered one way or the other. |
| Query.BelowAsymmetric | app.py:34 | Two strings are never below each other. Together these make `Below` a strict total order. |
| Query.Insert | app.py:34 | Inserting into a strictly sorted list keeps it strictly sorted and adds exactly the new element. |
| Query.DistinctDates | app.py:34 | The result is strictly increasing, and a string is in it iff it is the non-empty date of some record. |
| Query.Dates | app.py:29-36 | The same for `get_dates`, which gives [] when the file is missing. |
| Query.SortedUnique | app.py:34 | A strictly sorted list is determined by its elements, so `Dates` equals `sorted(set(...))`. |
| Query.DatesNotChronological | app.py:34 | The order is lexicographic on "DD/MM/YYYY": "02/08/2025" sorts before "15/07/2025". |

## Left out

- PIL (opening images, `img.size`, `img.info['dpi']`, `_getexif`), `os.listdir`, `os.path.exists`, `os.path.getsize`, and `os.path.getctime` with its `strftime` rendering. These are foreign I/O; their results are inputs of `Extract.ExtractMetadata`.
- The Nominatim reverse-geocoding call itself (network). Only its outcome is modelled.
- Floating-point rounding: reals stand in for floats in `convert_to_degrees` and `format_size`.
- String rendering: the `:.2f` size rendering, the "WxH dpi" rendering and the `int()` truncation of DPI values. `SizeText.Formatted` and `Resolution.Dpi` keep the numbers unrendered.
- JSON serialisation and the output file write (lines 150-153), console prints, and JSON reading in the web layer. The web layer's input is the record sequence the extractor produced, assumed to survive the JSON round trip.
- Flask routing, template rendering and `send_from_directory` (app.py:11-13, 38-40), and the browser script static/js/main.js. These are UI and serving plumbing.
- Text.Lower: lowers ASCII letters only. Python's `str.lower` also lowers other Unicode letters.
- Exif.DecodeValue: EXIF tuples are taken to hold rationals. Indexing a GPSInfo tuple by its own elements therefore always raises. A tuple of small integers could instead be indexed by them.
- Gps.ConvertToDegrees: a coordinate given as text is treated as raising. Python would convert its first three characters when they are digits.
- Exif.Scalar: EXIF values are text, tuples of rationals or integers. `_getexif()` can also return bytes (UNDEFINED-typed tags such as MakerNote), a bare rational, or `None`; these are outside the model's input type. The tags the extractor reads (GPSInfo and its four coordinate fields, DateTimeOriginal, DateTime) do not take those forms in a conforming EXIF block.

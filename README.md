# FirebaseToKMZ: the Firestore → KMZ pipeline, modelled in Dafny

The service answers `GET /kmz?campana_id=…`. It reads the `Registro`
documents whose `campanaID` equals the campaign id with surrounding `"`
removed. It normalises each document's `Coordinates` field into a
`(longitude, latitude)` pair, renders the pairs as an OGC KML 2.2 document
(a `Placemark` with a `Point` and `coordinates` text `lon,lat,0` per pair),
writes that document as the single member `doc.kml` of an archive named
`registros_<campana_id>_<6 hex chars>.kmz`, and returns a link to it. When
no document yields a pair it answers 404 and writes nothing.

Modules (one file each):

- `Wrappers` (`wrappers.dfy`): `Option`, used for Python's `None`.
- `Text` (`text.dfy`): `str.strip` with one character, `"\n".join`, and a split at the first occurrence of a character.
- `Numbers` (`numbers.dfy`): coordinate numbers, either integers or decimals, and their text, with `.` as decimal separator.
- `Coordinates` (`coordinates.dfy`): the filter value, the field-shape dispatch, and the `fetch_coordinates` loop.
- `Kml` (`kml.dfy`): `coords_to_kml`, plus a reader for the generated layout, used to prove that a generated document reads back as its coordinate texts.
- `Kmz` (`kmz.dfy`): the uuid suffix, the archive name, and the download folder.
  The folder is a class whose ghost `written` lists the archives written.
  `get_kmz` is a method over that folder.

The record store is a function from filter value to the sequence of records
it streams back. So `FetchCoordinates` and `GetKmz` are proved for every
possible store, and a quoted and an unquoted id read the same records.

Two behaviours of the code are worth stating directly:

- `str.strip('"')` removes every leading and trailing `"`, not only one layer, and so does `Text.Strip`.
- The file name holds the raw `campana_id`, quotes included; the code has no sanitiser, and neither does `KmzFileName`.

## Model

| member | source | states |
|---|---|---|
| `Text.TrimStart` | main.py:44 | the left-stripped value is no longer than the input and does not start with the stripped character |
| `Text.TrimEnd` | main.py:44 | the right-stripped value is no longer than the input, does not end with the stripped character, and keeps the input's first character |
| `Text.TrimStartDropsRun` | main.py:44 | the left-stripped value is a suffix of the input and everything dropped is the stripped character |
| `Text.TrimEndDropsRun` | main.py:44 | the right-stripped value is a prefix of the input and everything dropped is the stripped character |
| `Text.Strip` | main.py:44 | the stripped value neither starts nor ends with the stripped character |
| `Text.StripIsMiddle` | main.py:44 | strip removes exactly the maximal runs at both ends: for any split into run, middle that neither starts nor ends with the character, and run, the result is that middle |
| `Text.StripIdempotent` | main.py:44 | stripping twice equals stripping once |
| `Text.JoinLines` | main.py:66 | `"\n".join`: no lines give the empty text; otherwise the length is the lines' total plus one separator between each consecutive pair |
| `Text.JoinLinesAppend` | main.py:66 | joining two non-empty runs of lines is each run joined, with one `"\n"` between them |
| `Text.JoinLinesStarts` | main.py:66 | a joined text starts with the first line |
| `Text.JoinLinesFinishes` | main.py:66 | a joined text ends with the last line |
| `Text.JoinLinesEnds` | main.py:66 | a joined text starts with the first line and ends with the last |
| `Coordinates.FilterValue` | main.py:44 | the `campanaID` filter value has no `"` at either end and is no longer than the id |
| `Coordinates.FilterValueIdempotent` | main.py:44 | the filter value of a filter value is itself |
| `Coordinates.QuotedIdFiltersUnquoted` | main.py:44 | `"CAMP1"` with one or two layers of quotes filters on `CAMP1` |
| `Coordinates.CoordinatesOf` | main.py:49-50 | a value other than `None` comes from exactly the `Coordinates` key of the document's data, and a present key gives its value |
| `Coordinates.NormalizeValue` | main.py:50-61 | a geo-point yields `(longitude, latitude)`; a mapping yields `(m["longitude"], m["latitude"])` exactly when both keys are present and not `None`; a sequence yields `(items[1], items[0])` exactly when it has two elements, both not `None`; any other value or `None` yields nothing |
| `Coordinates.NormalizeRecord` | main.py:49-61 | a record whose data has a `Coordinates` field yields exactly that field's normalisation (a pair kept or skipped); a record without that field yields nothing |
| `Coordinates.ListIsLatitudeFirst` | main.py:56-57 | the list `[10.5, 20.1]` yields the pair `(20.1, 10.5)` |
| `Coordinates.NormalizeAll` | main.py:47-62 | no more pairs are collected than there are records |
| `Coordinates.NormalizeAllIsOrderedSelection` | main.py:47-62 | the i-th collected pair is the normalisation of the i-th usable record; the record positions strictly increase; every usable record contributes |
| `Coordinates.NormalizeAllEmpty` | main.py:47-62 | nothing is collected exactly when no record has a usable `Coordinates` value |
| `Coordinates.FetchCoordinates` | main.py:41-62 | the loop's accumulator ends as the ordered selection of the usable pairs of the records streamed for the stripped id |
| `Numbers.DecimalText` | main.py:68 | a natural number renders as one or more decimal digits with no leading zero, except for `0` itself |
| `Numbers.DecimalTextRoundTrip` | main.py:68 | reading the integral digits back gives the number |
| `Numbers.FormatNum` | main.py:68 | a coordinate renders with only a sign, digits and points, so no `,` and no `<`; a decimal holds exactly one `.` and an integer none; the text starts with `-` exactly for negative numbers |
| `Numbers.IntegerPrintsWithoutPoint` | main.py:68 | the integer field value `-70` prints as `-70` |
| `Kml.PointTexts` | main.py:66-70 | one text pair per coordinate, in order, none holding a comma |
| `Kml.ReadPlacemarkOfParts` | main.py:67-69 | a placemark block followed by anything reads back as its longitude and latitude texts, and the reader resumes right after the block |
| `Kml.ReadPlacemarksStep` | main.py:66-71 | a block, a newline and more text read back as the block's texts in front of what the rest reads as |
| `Kml.ReadPlacemarksOfJoin` | main.py:66-71 | newline-joined placemark blocks read back as the same texts, in order |
| `Kml.ReadKmlOfBody` | main.py:72-78 | the reader skips exactly the fixed header and closing tags and reads the body between them |
| `Kml.ReadDocumentOf` | main.py:65-78 | a document laid out from comma-free texts reads back as those texts, in order |
| `Kml.CoordsToKml` | main.py:65-78 | a generated document reads back as exactly one placemark per pair, in input order, the i-th with `lon_i,lat_i,0` |
| `Kml.KmlOfNoCoords` | main.py:72-78 | on no pairs the document is the header and an empty `Document`, and no placemark is read from it |
| `Kmz.HexText` | main.py:119 | the text has the requested width and only lower-case hexadecimal digits |
| `Kmz.HexTextRoundTrip` | main.py:119 | a number below 16^w is given exactly by its w hexadecimal digits |
| `Kmz.UuidHex` | main.py:119 | `uuid.hex` is 32 lower-case hexadecimal digits that read back as the uuid's value |
| `Kmz.UuidSuffix` | main.py:119 | the random suffix is six lower-case hexadecimal characters |
| `Kmz.KmzFileName` | main.py:120 | the name starts with `registros_` and ends with `.kmz`; with a six-character suffix it gives back the raw campaign id and the suffix |
| `Kmz.SplitNameOf` | main.py:120 | the same facts, stated on the concatenation itself |
| `Kmz.KmzFileNameInjective` | main.py:118-120 | equal archive names come only from equal ids and equal suffixes |
| `Kmz.NotFoundDetail` | main.py:116 | the 404 detail starts with the fixed message, holds the raw campaign id right after it and ends with the closing `'.` |
| `Kmz.DownloadPath` | main.py:83 | the path is `downloads/` followed by exactly the file name |
| `Kmz.KmzArchive` | main.py:83-85 | the archive sits at `downloads/<filename>` and has exactly one member, `doc.kml`, holding the markup |
| `Kmz.DownloadFolder.constructor` | main.py:22-23 | no archive has been written yet |
| `Kmz.DownloadFolder.WriteKmzFile` | main.py:81-86 | returns `downloads/<filename>` and adds exactly that one-member archive to what was written |
| `Kmz.GetKmz` | main.py:110-121 | no usable pair: a 404 with the detail naming the id, and nothing written; otherwise the response names `registros_<id>_<suffix>.kmz` and exactly one archive is added, holding `coords_to_kml` of the collected pairs |
| `Kmz.WrittenArchiveReadsBack` | main.py:114-121 | the written `doc.kml` reads back as the rendered pairs of the usable records, in store order |
| `Kmz.QuotedIdKeepsQuotesInName` | main.py:44 | a quoted id reads the same records as the unquoted one, but its archive name and its 404 detail differ because they keep the quotes |

## Left out

- Firebase initialisation and the embedded credential (main.py:26-37): network and SDK set-up.
- The Firestore query and its streaming (main.py:42-46): the store is the parameter `store`, from filter value to streamed records. The store's own ordering and any `StoreUnavailable` failure are not modelled.
- ZIP container, DEFLATE compression, UTF-8 encoding and the filesystem (main.py:22-23, 81-86): an archive is its path and its entries. A write never fails in the model, so `ArchiveWriteFailed` is not modelled (see the `Kmz.GetKmz` line below for ids on which the source's write always fails). Overwriting an existing name shows up as a second entry in `written`.
- FastAPI routing, CORS, the static mount, `/health`, `request.url_for` and `JSONResponse` (main.py:89-103, 124-126): framework wrappers. `GetKmz` returns the archive name that the link points at, not the absolute URL.
- `uuid.uuid4()` randomness (main.py:119): the uuid's 128-bit value is a parameter. Suffix uniqueness is a probabilistic claim and is not stated.
- Floating point and Python's float formatting (main.py:68): a float is a decimal, rendered as sign, digits, `.` and digits. Exponent notation, `nan` and `inf` are not modelled. Integer-valued fields are the `Integer` case, printed without a point.
- Coordinates.FieldValue: mapping values and sequence items are numbers or `None`. The source would also append any other non-`None` value it finds there; the model does not.
- Coordinates.NormalizeValue: the variants are disjoint, so the geo-point branch's precedence is only the order of the dispatch. A value that is both a dict or list and has `longitude`/`latitude` attributes cannot be represented. An object with only one of the two attributes fails the attribute read and is neither a dict nor a list, so it is `Other` and is skipped, as in the source.
- Kmz.GetKmz: promises a download link and a written archive for every id with usable pairs. The source puts the raw id into the file name (main.py:120), and `DOWNLOAD_DIR / filename` (main.py:83) reads a `/` in it as a directory separator. So for an id containing `/` (for example `a/b`, which opens `downloads/registros_a/b_<suffix>.kmz` in a directory that is never created) or a NUL, the source's `zipfile.ZipFile(..., "w")` always raises and the client gets a 500. The model does not capture this failure.

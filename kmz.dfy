/**
 * The request path of `GET /kmz` (main.py:81-86, 110-121): the random
 * filename suffix, the archive name built from the raw campaign id, the
 * single-entry archive write, and the not-found outcome that writes
 * nothing. The download folder is a class whose ghost state is the list of
 * archives written so far.
 */
module Kmz {

  import opened Wrappers
  import opened Coordinates
  import opened Kml
  import Text

  /** 16^w. */
  function Pow16(w: nat): (p: nat)
    ensures p >= 1
  {
    if w == 0 then 1 else 16 * Pow16(w - 1)
  }

  const UuidBound := Pow16(32)

  predicate IsLowerHex(ch: char) {
    '0' <= ch <= '9' || 'a' <= ch <= 'f'
  }

  function HexChar(d: nat): (ch: char)
    requires d < 16
    ensures IsLowerHex(ch)
  {
    if d < 10 then ('0' as int + d) as char else ('a' as int + d - 10) as char
  }

  function HexDigitValue(ch: char): nat {
    if '0' <= ch <= '9' then ch as int - '0' as int
    else if 'a' <= ch <= 'f' then ch as int - 'a' as int + 10
    else 0
  }

  /** The `width` low hexadecimal digits of `n`, most significant first, in lower case. */
  function HexText(n: nat, width: nat): (s: string)
    ensures |s| == width
    ensures forall i :: 0 <= i < |s| ==> IsLowerHex(s[i])
  {
    if width == 0 then "" else HexText(n / 16, width - 1) + [HexChar(n % 16)]
  }

  /** Reads hexadecimal text back into a number. */
  function HexValue(s: string): nat {
    if s == [] then 0 else HexValue(s[..|s| - 1]) * 16 + HexDigitValue(s[|s| - 1])
  }

  /** A number below 16^w is given by its w hexadecimal digits exactly. */
  lemma {:induction false} HexTextRoundTrip(n: nat, width: nat)
    requires n < Pow16(width)
    ensures HexValue(HexText(n, width)) == n
  {
    if width > 0 {
      var s := HexText(n, width);
      assert s[..|s| - 1] == HexText(n / 16, width - 1);
      HexTextRoundTrip(n / 16, width - 1);
      var d := n % 16;
      assert HexDigitValue(HexChar(d)) == d;
    }
  }

  /** `uuid.hex`: the 128-bit value as 32 lower-case hexadecimal digits, which read back as it. */
  function UuidHex(uuid: nat): (s: string)
    requires uuid < UuidBound
    ensures |s| == 32 && forall i :: 0 <= i < 32 ==> IsLowerHex(s[i])
    ensures HexValue(s) == uuid
  {
    HexTextRoundTrip(uuid, 32);
    HexText(uuid, 32)
  }

  /** `uuid.uuid4().hex[:6]`: six lower-case hexadecimal characters. */
  function UuidSuffix(uuid: nat): (suffix: string)
    requires uuid < UuidBound
    ensures |suffix| == 6
    ensures forall i :: 0 <= i < 6 ==> IsLowerHex(suffix[i])
  {
    UuidHex(uuid)[..6]
  }

  const FilePrefix := "registros_"
  const FileExtension := ".kmz"

  /** Recovers the campaign id and the six-character suffix from an archive name. */
  function SplitKmzFileName(name: string): Option<(string, string)> {
    var n := |name|;
    if n < |FilePrefix| + 11 || !Text.StartsWith(name, FilePrefix)
       || !Text.EndsWith(name, FileExtension) || name[n - 11] != '_'
    then None
    else Some((name[|FilePrefix|..n - 11], name[n - 10..n - 4]))
  }

  /**
   * `f"registros_{campana_id}_{slug}.kmz"`, with the raw, unstripped id:
   * with a six-character suffix, the name gives back the id and the suffix.
   */
  function KmzFileName(campanaId: string, suffix: string): (name: string)
    ensures Text.StartsWith(name, FilePrefix) && Text.EndsWith(name, FileExtension)
    ensures |suffix| == 6 ==> SplitKmzFileName(name) == Some((campanaId, suffix))
  {
    SplitNameOf(campanaId, suffix);
    FilePrefix + campanaId + "_" + suffix + FileExtension
  }

  lemma SplitNameOf(campanaId: string, suffix: string)
    ensures var name := FilePrefix + campanaId + "_" + suffix + FileExtension;
      Text.StartsWith(name, FilePrefix) && Text.EndsWith(name, FileExtension) &&
      (|suffix| == 6 ==> SplitKmzFileName(name) == Some((campanaId, suffix)))
  {
    var name := FilePrefix + campanaId + "_" + suffix + FileExtension;
    var n := |name|;
    assert name[..|FilePrefix|] == FilePrefix;
    assert name[n - 4..] == FileExtension;
    if |suffix| == 6 {
      assert n == |FilePrefix| + |campanaId| + 11;
      assert name[n - 11] == '_';
      assert name[|FilePrefix|..n - 11] == campanaId;
      assert name[n - 10..n - 4] == suffix;
    }
  }

  /** Two requests produce the same archive name only for the same id and the same suffix. */
  lemma KmzFileNameInjective(id1: string, suffix1: string, id2: string, suffix2: string)
    requires |suffix1| == 6 && |suffix2| == 6
    requires KmzFileName(id1, suffix1) == KmzFileName(id2, suffix2)
    ensures id1 == id2 && suffix1 == suffix2
  {
  }

  const NotFoundPrefix := "No hay registros para campanaID='"

  /** The 404 detail: it quotes the campaign id exactly as the caller sent it. */
  function NotFoundDetail(campanaId: string): (detail: string)
    ensures Text.StartsWith(detail, NotFoundPrefix)
    ensures |detail| == |NotFoundPrefix| + |campanaId| + 2
    ensures detail[|NotFoundPrefix|..|NotFoundPrefix| + |campanaId|] == campanaId
    ensures detail[|detail| - 2..] == "'."
  {
    var detail := NotFoundPrefix + campanaId + "'.";
    assert detail[|NotFoundPrefix|..|NotFoundPrefix| + |campanaId|] == campanaId;
    assert detail[|detail| - 2..] == "'.";
    detail
  }

  const DownloadDir := "downloads"
  const KmlEntryName := "doc.kml"

  /** `DOWNLOAD_DIR / filename`: the name inside the download folder. */
  function DownloadPath(filename: string): (path: string)
    ensures Text.StartsWith(path, DownloadDir + "/") && path[|DownloadDir| + 1..] == filename
  {
    DownloadDir + "/" + filename
  }

  /** One member of a ZIP archive: its name and its text. */
  datatype ZipEntry = ZipEntry(name: string, text: string)

  /** An archive written to disk: its path and its members. */
  datatype KmzFile = KmzFile(path: string, entries: seq<ZipEntry>)

  /** What `write_kmz_file` leaves on disk: one member, `doc.kml`, holding the markup. */
  function KmzArchive(kml: string, filename: string): (f: KmzFile)
    ensures f.path == DownloadPath(filename)
    ensures |f.entries| == 1 && f.entries[0].name == KmlEntryName && f.entries[0].text == kml
  {
    KmzFile(DownloadPath(filename), [ZipEntry(KmlEntryName, kml)])
  }

  /** The response of `get_kmz`: the archive the download link points at, or an HTTP error. */
  datatype Response = DownloadLink(filename: string) | HttpError(status: nat, detail: string)

  /** The download folder; `written` lists the archives written, oldest first. */
  class DownloadFolder {
    ghost var written: seq<KmzFile>

    constructor ()
      ensures written == []
    {
      written := [];
    }

    /** `write_kmz_file`: creates (or overwrites) the archive and returns its path. */
    method WriteKmzFile(kml: string, filename: string) returns (path: string)
      modifies this
      ensures path == DownloadPath(filename)
      ensures written == old(written) + [KmzArchive(kml, filename)]
    {
      path := DownloadPath(filename);
      written := written + [KmzArchive(kml, filename)];
    }
  }

  /**
   * `get_kmz`: no usable pair gives a 404 naming the campaign id and writes
   * nothing; otherwise exactly one archive is written, under the name
   * built from the raw id and the suffix, holding the rendered markup.
   */
  method GetKmz(folder: DownloadFolder, store: string -> seq<Record>, campanaId: string, uuid: nat)
    returns (response: Response)
    requires uuid < UuidBound
    modifies folder
    ensures var coords := NormalizeAll(store(FilterValue(campanaId)));
      if coords == [] then
        response == HttpError(404, NotFoundDetail(campanaId)) && folder.written == old(folder.written)
      else
        response == DownloadLink(KmzFileName(campanaId, UuidSuffix(uuid))) &&
        folder.written == old(folder.written) + [KmzArchive(CoordsToKml(coords), response.filename)]
  {
    var coords := FetchCoordinates(store, campanaId);
    if coords == [] {
      return HttpError(404, NotFoundDetail(campanaId));
    }
    var suffix := UuidSuffix(uuid);
    var filename := KmzFileName(campanaId, suffix);
    var path := folder.WriteKmzFile(CoordsToKml(coords), filename);
    response := DownloadLink(filename);
  }

  /**
   * What a successful request leaves on disk reads back as the rendered
   * coordinates of every usable record, in store order.
   */
  lemma WrittenArchiveReadsBack(records: seq<Record>, filename: string)
    ensures var archive := KmzArchive(CoordsToKml(NormalizeAll(records)), filename);
      ReadKml(archive.entries[0].text) == Some(PointTexts(NormalizeAll(records)))
  {
  }

  /**
   * A quoted and an unquoted id read the same records, but the quoted one
   * keeps its quotes in the archive name and in the 404 detail.
   */
  lemma QuotedIdKeepsQuotesInName(suffix: string)
    ensures FilterValue("\"CAMP1\"") == FilterValue("CAMP1")
    ensures KmzFileName("\"CAMP1\"", suffix) != KmzFileName("CAMP1", suffix)
    ensures NotFoundDetail("\"CAMP1\"") != NotFoundDetail("CAMP1")
  {
    QuotedIdFiltersUnquoted();
    Text.StripIsMiddle("CAMP1", '"', 0, 5);
    assert "CAMP1"[0..5] == "CAMP1";
    assert |KmzFileName("\"CAMP1\"", suffix)| != |KmzFileName("CAMP1", suffix)|;
    assert |NotFoundDetail("\"CAMP1\"")| != |NotFoundDetail("CAMP1")|;
  }
}

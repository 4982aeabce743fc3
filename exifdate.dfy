/**
 * `extractExifDate`: the capture date of a photo, from the value of the TIFF
 * DateTime tag (tag 306, "YYYY:MM:DD HH:MM:SS"), as the date part with its colons
 * turned into dashes.
 */
module ExifDate {
  import opened Wrappers
  import opened JavaStrings

  /**
   * What reading the metadata and looking up the DateTime tag gives, the library's
   * work taken as an input:
   *   ReadError  - the read or the tag's value raised ImageReadException or IOException;
   *   NotJpeg    - the metadata is not JPEG metadata, so the cast to JpegImageMetadata fails;
   *   NoMetadata - the file carries no metadata (getMetadata gives null);
   *   NoDateTime - the metadata has no DateTime tag;
   *   DateTime   - the tag's string value.
   */
  datatype MetadataRead = ReadError | NotJpeg | NoMetadata | NoDateTime | DateTime(raw: string)

  /**
   * The result of `extractExifDate`: a date, null (NoDate), or an exception that
   * its own catch clause does not handle and that therefore reaches the caller.
   */
  datatype ExtractResult = NoDate | Date(value: string) | Throws

  /** `raw.split(" ")[0].replace(":", "-")`; None where `[0]` is out of bounds. */
  function NormalizeDateTime(raw: string): Option<string> {
    var parts := Split(raw, ' ');
    if parts == [] then None else Some(Replace(parts[0], ':', '-'))
  }

  function ExtractExifDate(m: MetadataRead): (r: ExtractResult)
    ensures r.Throws? <==> m.NotJpeg? || (m.DateTime? && NormalizeDateTime(m.raw).None?)
    ensures r.Date? <==> m.DateTime? && NormalizeDateTime(m.raw).Some?
    ensures r.Date? ==> r.value == NormalizeDateTime(m.raw).value
  {
    match m
    case ReadError => NoDate
    case NotJpeg => Throws
    case NoMetadata => NoDate
    case NoDateTime => NoDate
    case DateTime(raw) =>
      match NormalizeDateTime(raw)
      case None => Throws
      case Some(d) => Date(d)
  }

  /**
   * The normalised date is the part of the raw value before its first space, of the
   * same length, with each ':' replaced by '-'; so it holds neither spaces nor colons.
   * Only a non-empty value made entirely of spaces has no date part.
   */
  lemma NormalizeDateTimeSpec(raw: string)
    ensures NormalizeDateTime(raw).None? <==> |raw| > 0 && AllChars(raw, ' ')
    ensures NormalizeDateTime(raw).Some? ==>
      var d := NormalizeDateTime(raw).value;
      var n := IndexOf(raw, ' ');
      && |d| == n
      && (forall k :: 0 <= k < n ==> d[k] == if raw[k] == ':' then '-' else raw[k])
      && (forall k :: 0 <= k < |d| ==> d[k] != ' ' && d[k] != ':')
  {
    SplitHead(raw, ' ');
  }

  /** Normalising an already normalised date changes nothing. */
  lemma NormalizeIdempotent(raw: string)
    requires NormalizeDateTime(raw).Some?
    ensures NormalizeDateTime(NormalizeDateTime(raw).value) == NormalizeDateTime(raw)
  {
    var d := NormalizeDateTime(raw).value;
    NormalizeDateTimeSpec(raw);
    assert IndexOf(d, ' ') == |d|;
    ReplaceAbsent(d, ':', '-');
  }

  predicate IsDigit(c: char) { '0' <= c <= '9' }

  /** A value in the standard DateTime layout "YYYY:MM:DD HH:MM:SS". */
  predicate IsExifDateTime(raw: string) {
    && |raw| == 19
    && raw[4] == ':' && raw[7] == ':' && raw[10] == ' ' && raw[13] == ':' && raw[16] == ':'
    && forall k :: 0 <= k < 19 && k != 4 && k != 7 && k != 10 && k != 13 && k != 16 ==> IsDigit(raw[k])
  }

  /** A value in the standard layout becomes its date as "YYYY-MM-DD". */
  lemma NormalizeStandardLayout(raw: string)
    requires IsExifDateTime(raw)
    ensures NormalizeDateTime(raw) ==
      Some([raw[0], raw[1], raw[2], raw[3], '-', raw[5], raw[6], '-', raw[8], raw[9]])
  {
    assert forall k :: 0 <= k < 10 && k != 4 && k != 7 ==> raw[k] != ' ' && raw[k] != ':' by {
      forall k | 0 <= k < 10 && k != 4 && k != 7 ensures raw[k] != ' ' && raw[k] != ':' {
        assert IsDigit(raw[k]);
      }
    }
    assert IndexOf(raw, ' ') == 10;
    NormalizeDateTimeSpec(raw);
    var d := NormalizeDateTime(raw).value;
    var want := [raw[0], raw[1], raw[2], raw[3], '-', raw[5], raw[6], '-', raw[8], raw[9]];
    assert forall k :: 0 <= k < 10 ==> d[k] == want[k];
    assert d == want;
  }

  /** The example timestamp "2023:07:15 14:30:00" gives "2023-07-15". */
  lemma NormalizeExample(raw: string)
    requires raw == "2023:07:15 14:30:00"
    ensures NormalizeDateTime(raw) == Some("2023-07-15")
  {
    assert IsExifDateTime(raw);
    NormalizeStandardLayout(raw);
  }

  /** A value that starts with a space gives the empty date ... */
  lemma NormalizeLeadingSpace(raw: string)
    requires raw == " 14:30:00"
    ensures NormalizeDateTime(raw) == Some("")
  {
    assert raw[0] == ' ';
    NormalizeDateTimeSpec(raw);
  }

  /** ... while one made only of spaces has no date part at all. */
  lemma NormalizeOnlySpaces(raw: string)
    requires raw == "   "
    ensures NormalizeDateTime(raw) == None
  {
    assert AllChars(raw, ' ');
    NormalizeDateTimeSpec(raw);
  }
}

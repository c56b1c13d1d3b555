/**
 * Choosing where a photo's stem comes from (new_stem_from_exif and
 * new_stem_from_stat): the EXIF capture time when the file has EXIF data
 * holding DateTimeOriginal, the filesystem birth time otherwise. The EXIF
 * reader and stat are outside the model; their outcomes are parameters.
 */
module Resolver {
  import opened Wrappers
  import opened Decimal
  import opened Timestamps

  /** EXIF tag 0x9003, DateTimeOriginal, looked up in the EXIF IFD. */
  const DateTimeOriginalTag: nat := 0x9003

  /** What exif_data_new_from_file found: the EXIF IFD's entries, each tag with its value as text. */
  datatype ExifData = ExifData(exifIfd: map<nat, string>)

  /** The file has EXIF data and that data has a DateTimeOriginal entry. */
  predicate HasCaptureTime(exif: Option<ExifData>) {
    exif.Some? && DateTimeOriginalTag in exif.value.exifIfd
  }

  /** The text of the DateTimeOriginal entry. */
  function CaptureTime(exif: Option<ExifData>): string
    requires HasCaptureTime(exif)
  {
    exif.value.exifIfd[DateTimeOriginalTag]
  }

  /**
   * new_stem_from_stat: `birth` is the file's birth time in local time, or
   * None when stat fails; None in the result is that failure, which ends
   * the program.
   */
  function NewStemFromStat(birth: Option<Tm>): (r: Option<string>)
    ensures r.None? <==> birth.None?
    ensures birth.Some? ==> r == Some(TimeToPath(birth.value))
    ensures r.Some? && InRange(birth.value) ==> IsCanonicalStem(r.value)
  {
    match birth
    case None => None
    case Some(t) =>
      BirthStemCanonical(t);
      Some(TimeToPath(t))
  }

  /** A birth time whose fields are in range gives a canonical stem. */
  lemma BirthStemCanonical(t: Tm)
    ensures InRange(t) ==> IsCanonicalStem(TimeToPath(t))
  {
    if InRange(t) {
      TimeToPathShape(t);
    }
  }

  /**
   * new_stem_from_exif: with no EXIF data, or EXIF data without
   * DateTimeOriginal, the birth-time stem; otherwise the stem of the
   * capture time, with the birth time never consulted. The program stops
   * (None) only when there is no capture time and stat fails.
   */
  function NewStemFromExif(exif: Option<ExifData>, birth: Option<Tm>): (r: Option<string>)
    requires HasCaptureTime(exif) ==> WellFormedDateTime(CaptureTime(exif))
    ensures HasCaptureTime(exif) ==> r == Some(StemOfExifText(CaptureTime(exif)))
    ensures !HasCaptureTime(exif) ==> r == NewStemFromStat(birth)
    ensures r.None? <==> !HasCaptureTime(exif) && birth.None?
    ensures r.Some? && (birth.Some? ==> InRange(birth.value)) ==> IsCanonicalStem(r.value)
  {
    if exif.None? then NewStemFromStat(birth)
    else
      var data := exif.value;
      if DateTimeOriginalTag !in data.exifIfd then NewStemFromStat(birth)
      else Some(ExifTimeToPath(data.exifIfd[DateTimeOriginalTag]))
  }

  /** With a capture time, the birth time (and whether stat would fail) makes no difference. */
  lemma CaptureTimeIgnoresBirthTime(exif: Option<ExifData>, b1: Option<Tm>, b2: Option<Tm>)
    requires HasCaptureTime(exif) && WellFormedDateTime(CaptureTime(exif))
    ensures NewStemFromExif(exif, b1) == NewStemFromExif(exif, b2)
  {
  }

  /** The EXIF text "2023:05:01 10:00:00" is accepted and gives the stem "2023-05-01_10-00-00". */
  lemma CaptureTimeExample()
    ensures var exif := Some(ExifData(map[DateTimeOriginalTag := "2023:05:01 10:00:00"]));
      && WellFormedDateTime(CaptureTime(exif))
      && NewStemFromExif(exif, None) == Some("2023-05-01_10-00-00")
  {
    var text := "2023:05:01 10:00:00";
    TwoDigits(text[5..7]);
    TwoDigits(text[8..10]);
    TwoDigits(text[11..13]);
    TwoDigits(text[14..16]);
    TwoDigits(text[17..19]);
    assert WellFormedDateTime(text);
    assert StemOfExifText(text) == "2023-05-01_10-00-00";
  }

  /**
   * A file without EXIF data, or without DateTimeOriginal, born at 1 May
   * 2023, 10:00:00 local time, gets the same stem as the capture time above.
   */
  lemma BirthTimeExample()
    ensures NewStemFromExif(None, Some(Tm(123, 4, 1, 10, 0, 0))) == Some("2023-05-01_10-00-00")
    ensures NewStemFromExif(Some(ExifData(map[])), Some(Tm(123, 4, 1, 10, 0, 0))) == Some("2023-05-01_10-00-00")
  {
    BirthStem();
    assert NewStemFromStat(Some(Tm(123, 4, 1, 10, 0, 0))) == Some("2023-05-01_10-00-00");
  }

  /** strftime on 1 May 2023, 10:00:00. */
  lemma BirthStem()
    ensures TimeToPath(Tm(123, 4, 1, 10, 0, 0)) == "2023-05-01_10-00-00"
  {
    ExampleFields();
    assert Join3("2023", "05", "01", '-') == "2023-05-01";
    assert Join3("10", "00", "00", '-') == "10-00-00";
  }

  /** The fields of 1 May 2023, 10:00:00 as "%0wd" writes them. */
  lemma ExampleFields()
    ensures PadInt(2023, 4) == "2023" && PadInt(5, 2) == "05" && PadInt(1, 2) == "01"
    ensures PadInt(10, 2) == "10" && PadInt(0, 2) == "00"
  {
  }

  lemma TwoDigits(s: string)
    requires |s| == 2 && IsDigit(s[0]) && IsDigit(s[1])
    ensures AllDigits(s) && DigitsValue(s) == 10 * DigitValue(s[0]) + DigitValue(s[1])
  {
    assert s[..1][..0] == [];
  }
}

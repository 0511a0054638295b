/**
 * `RubinScraper.has_website_changed`: the portal's front page shows when it
 * was last updated; the scraper compares that moment with the time of its
 * own last run, kept as text, to decide whether scraping again is worth it.
 */
module ChangeDetection {
  import opened Wrappers
  import opened Text
  import opened DateTimes

  /** The exceptions `has_website_changed` lets escape. */
  datatype ChangeError =
    | MissingBanner   // no `<div class="aktualisierung">`: `None.get_text()`
    | BadBanner       // `strptime` refused the banner's date
    | BadSince        // `strptime` refused the stored timestamp

  /** `len('Letzte Aktualisierung am:')`: the banner's date starts after this many characters, whatever they are. */
  const BannerPrefix: nat := 25

  /** `datetime.strptime(s, "%d.%m.%Y, %H:%M")` for fields of ASCII digits, two-digit ones where `strptime` allows one or two, and one whitespace character. */
  function ParseBanner(s: string): (r: Option<DateTime>)
    ensures r.Some? ==> Valid(r.value)
  {
    if |s| == 17 && DigitsAt(s, 0, 2) && s[2] == '.' && DigitsAt(s, 3, 2) && s[5] == '.'
       && DigitsAt(s, 6, 4) && s[10] == ',' && IsSpace(s[11])
       && DigitsAt(s, 12, 2) && s[14] == ':' && DigitsAt(s, 15, 2)
    then
      var d := DateTime(NumberAt(s, 6, 4), NumberAt(s, 3, 2), NumberAt(s, 0, 2), NumberAt(s, 12, 2), NumberAt(s, 15, 2));
      if Valid(d) then Some(d) else None
    else None
  }

  /** `datetime.strptime(s, "%Y-%m-%d %H:%M")` for fields of ASCII digits, two-digit ones where `strptime` allows one or two, and one whitespace character. */
  function ParseSince(s: string): (r: Option<DateTime>)
    ensures r.Some? ==> Valid(r.value)
  {
    if |s| == 16 && DigitsAt(s, 0, 4) && s[4] == '-' && DigitsAt(s, 5, 2) && s[7] == '-'
       && DigitsAt(s, 8, 2) && IsSpace(s[10]) && DigitsAt(s, 11, 2) && s[13] == ':' && DigitsAt(s, 14, 2)
    then
      var d := DateTime(NumberAt(s, 0, 4), NumberAt(s, 5, 2), NumberAt(s, 8, 2), NumberAt(s, 11, 2), NumberAt(s, 14, 2));
      if Valid(d) then Some(d) else None
    else None
  }

  /**
   * The answer for a front page whose banner text is `banner` (`None`: no
   * banner element) and a stored timestamp `since`. The banner is read
   * before `since` is looked at; without a stored timestamp the site counts
   * as changed; otherwise only a banner strictly later than `since[:16]` is
   * a change.
   */
  function HasWebsiteChanged(banner: Option<string>, since: Option<string>): (r: Result<bool, ChangeError>)
    ensures banner.None? ==> r == Failure(MissingBanner)
    ensures banner.Some? && ParseBanner(Slice(banner.value, BannerPrefix, |banner.value|)).None? ==> r == Failure(BadBanner)
    ensures banner.Some? && since.None? && ParseBanner(Slice(banner.value, BannerPrefix, |banner.value|)).Some? ==>
      r == Success(true)
    ensures r.Success? && since.Some? ==> ParseSince(Slice(since.value, 0, 16)).Some?
    ensures r.Success? && since.Some? ==>
      r.value == Before(ParseSince(Slice(since.value, 0, 16)).value,
                        ParseBanner(Slice(banner.value, BannerPrefix, |banner.value|)).value)
  {
    if banner.None? then Failure(MissingBanner)
    else
      match ParseBanner(Slice(banner.value, BannerPrefix, |banner.value|))
      case None => Failure(BadBanner)
      case Some(web) =>
        if since.None? then Success(true)
        else
          match ParseSince(Slice(since.value, 0, 16))
          case None => Failure(BadSince)
          case Some(stored) => Success(Before(stored, web))
  }

  /** The banner's text for a moment: `DD.MM.YYYY, HH:MM` after the 25-character prefix. */
  function FormatBanner(d: DateTime): string
    requires Valid(d)
  {
    Pad(d.day, 2) + "." + Pad(d.month, 2) + "." + Pad(d.year, 4) + ", " + Pad(d.hour, 2) + ":" + Pad(d.minute, 2)
  }

  /** `str(datetime)` of a moment at whole minutes: `YYYY-MM-DD HH:MM:00`. */
  function FormatSince(d: DateTime): string
    requires Valid(d)
  {
    Pad(d.year, 4) + "-" + Pad(d.month, 2) + "-" + Pad(d.day, 2) + " " + Pad(d.hour, 2) + ":" + Pad(d.minute, 2) + ":00"
  }

  lemma PadFields(d: DateTime)
    requires Valid(d)
    ensures |Pad(d.year, 4)| == 4 && AllDigits(Pad(d.year, 4)) && Value(Pad(d.year, 4)) == d.year
    ensures |Pad(d.month, 2)| == 2 && AllDigits(Pad(d.month, 2)) && Value(Pad(d.month, 2)) == d.month
    ensures |Pad(d.day, 2)| == 2 && AllDigits(Pad(d.day, 2)) && Value(Pad(d.day, 2)) == d.day
    ensures |Pad(d.hour, 2)| == 2 && AllDigits(Pad(d.hour, 2)) && Value(Pad(d.hour, 2)) == d.hour
    ensures |Pad(d.minute, 2)| == 2 && AllDigits(Pad(d.minute, 2)) && Value(Pad(d.minute, 2)) == d.minute
  {
    assert Pow10(2) == 100 && Pow10(4) == 10000;
    ValuePad(d.year, 4);
    ValuePad(d.month, 2);
    ValuePad(d.day, 2);
    ValuePad(d.hour, 2);
    ValuePad(d.minute, 2);
  }

  /** The banner's date reads back as the moment it was written from. */
  lemma BannerRoundTrip(d: DateTime)
    requires Valid(d)
    ensures ParseBanner(FormatBanner(d)) == Some(d)
  {
    PadFields(d);
    var s := FormatBanner(d);
    assert s[0..2] == Pad(d.day, 2);
    assert s[3..5] == Pad(d.month, 2);
    assert s[6..10] == Pad(d.year, 4);
    assert s[12..14] == Pad(d.hour, 2);
    assert s[15..17] == Pad(d.minute, 2);
    assert s[2] == '.' && s[5] == '.' && s[10] == ',' && s[11] == ' ' && s[14] == ':';
  }

  /** The first 16 characters of a stored timestamp read back as the moment it was written from. */
  lemma SinceRoundTrip(d: DateTime)
    requires Valid(d)
    ensures ParseSince(Slice(FormatSince(d), 0, 16)) == Some(d)
  {
    PadFields(d);
    var s := FormatSince(d);
    var p := Slice(s, 0, 16);
    assert p == s[..16];
    assert p[0..4] == Pad(d.year, 4);
    assert p[5..7] == Pad(d.month, 2);
    assert p[8..10] == Pad(d.day, 2);
    assert p[11..13] == Pad(d.hour, 2);
    assert p[14..16] == Pad(d.minute, 2);
    assert p[4] == '-' && p[7] == '-' && p[10] == ' ' && p[13] == ':';
  }

  /**
   * With a readable banner and a readable stored timestamp, the site has
   * changed exactly when fewer minutes had elapsed at the stored moment than
   * at the banner's: equal moments are no change.
   */
  lemma ChangedIffLater(banner: string, since: string)
    requires ParseBanner(Slice(banner, BannerPrefix, |banner|)).Some?
    requires ParseSince(Slice(since, 0, 16)).Some?
    ensures var web, stored := ParseBanner(Slice(banner, BannerPrefix, |banner|)).value, ParseSince(Slice(since, 0, 16)).value;
      HasWebsiteChanged(Some(banner), Some(since)) == Success(Minutes(stored) < Minutes(web))
      && (stored == web ==> HasWebsiteChanged(Some(banner), Some(since)) == Success(false))
  {
    var web, stored := ParseBanner(Slice(banner, BannerPrefix, |banner|)).value, ParseSince(Slice(since, 0, 16)).value;
    BeforeIffEarlier(stored, web);
  }

  /**
   * End to end: a banner written for `web` after any 25-character prefix and
   * a timestamp stored for `stored` give `stored < web`; no stored
   * timestamp gives a change.
   */
  lemma ChangedOnWrittenTimes(prefix: string, web: DateTime, stored: DateTime)
    requires |prefix| == BannerPrefix && Valid(web) && Valid(stored)
    ensures HasWebsiteChanged(Some(prefix + FormatBanner(web)), Some(FormatSince(stored))) == Success(Before(stored, web))
    ensures HasWebsiteChanged(Some(prefix + FormatBanner(web)), None) == Success(true)
  {
    var banner := prefix + FormatBanner(web);
    assert Slice(banner, BannerPrefix, |banner|) == FormatBanner(web);
    BannerRoundTrip(web);
    SinceRoundTrip(stored);
  }
}

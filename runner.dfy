/**
 * The background download task started by the `/download` route
 * (app.py:44-91): the request it hands to the media provider, the
 * progress hook that turns provider events into percentages, and the
 * rewriting of the provider's file name to the `.mp3` the audio
 * post-processor produces.  The provider itself is not modelled: its
 * events and its outcome are inputs.
 */
module Runner {
  import opened Wrappers
  import opened Text

  // ------------------------------------------------------------ request

  /** The quality used when the form has no `quality` field. */
  const DefaultQuality: string := "128"

  const WatchUrlPrefix: string := "https://music.youtube.com/watch?v="

  /** What the background download asks the provider for: the watch URL of the song and the preferred MP3 bitrate. */
  datatype FetchRequest = FetchRequest(url: string, quality: string)

  /** The quality forwarded to the post-processor: the form field verbatim when present, even when empty. */
  function Quality(field: Option<string>): (q: string)
    ensures field.None? ==> q == DefaultQuality
    ensures field.Some? ==> q == field.value
  {
    field.GetOr(DefaultQuality)
  }

  function WatchUrl(videoId: string): (url: string)
    ensures |url| == |WatchUrlPrefix| + |videoId|
    ensures url[..|WatchUrlPrefix|] == WatchUrlPrefix && url[|WatchUrlPrefix|..] == videoId
  {
    WatchUrlPrefix + videoId
  }

  // -------------------------------------------------------- progress hook

  /** One call of the progress hook: the event's `status` and its `_percent_str`, if any. */
  datatype HookEvent = HookEvent(status: string, percentStr: Option<string>)

  const DefaultPercentStr: string := "0.0%"

  /** The text handed to `float`: the percent string stripped and with every `%` removed. */
  function PercentText(e: HookEvent): string {
    ReplaceAll(Strip(e.percentStr.GetOr(DefaultPercentStr)), "%", "")
  }

  predicate IsDigit(c: char) {
    '0' <= c <= '9'
  }

  predicate AllDigits(s: string) {
    forall k :: 0 <= k < |s| ==> IsDigit(s[k])
  }

  /** The value of a string of decimal digits (0 for the empty string). */
  function DigitsValue(s: string): nat
    requires AllDigits(s)
  {
    if s == [] then 0
    else 10 * DigitsValue(s[..|s| - 1]) + (s[|s| - 1] as int - '0' as int)
  }

  /** The index of the first `c` in `s`, or `|s|` when there is none. */
  function IndexOf(s: string, c: char): (k: nat)
    ensures k <= |s| && Excludes(s[..k], c)
    ensures k < |s| ==> s[k] == c
  {
    if s == [] then 0
    else if s[0] == c then 0
    else 1 + IndexOf(s[1..], c)
  }

  /** Digits with at most one decimal point and at least one digit: the integer part's value, the fraction dropped. */
  function UnsignedPart(body: string): (r: Option<nat>)
    ensures r.Some? ==> body != []
  {
    var k := IndexOf(body, '.');
    var whole := body[..k];
    var fraction := if k < |body| then body[k + 1..] else "";
    if AllDigits(whole) && AllDigits(fraction) && |whole| + |fraction| > 0 then Some(DigitsValue(whole))
    else None
  }

  /** An optional sign followed by `UnsignedPart`; a minus sign negates the value. */
  function SignedPart(t: string): (r: Option<int>)
    ensures r.Some? ==> t != []
    ensures r.Some? && r.value < 0 ==> t[0] == '-'
  {
    if t != [] && (t[0] == '-' || t[0] == '+') then
      match UnsignedPart(t[1..])
      case None => None
      case Some(v) => Some(if t[0] == '-' then -(v as int) else v as int)
    else
      match UnsignedPart(t)
      case None => None
      case Some(v) => Some(v as int)
  }

  /**
   * The ASCII information separators U+001C to U+001F: `str.isspace()`
   * accepts them, but `float()` does not strip them.
   */
  predicate IsSeparator(c: char) {
    0x1C <= c as int <= 0x1F
  }

  predicate NoSeparator(s: string) {
    forall k :: 0 <= k < |s| ==> !IsSeparator(s[k])
  }

  /**
   * `int(float(s))` on decimal notation: surrounding white space, an
   * optional sign, then digits with at most one decimal point.  The
   * fraction is dropped, which truncates toward zero.  `float()` strips
   * the white space `str.strip()` strips except the information
   * separators, so padding that holds one leaves a character no number
   * contains.  Anything else is the `ValueError` the hook swallows.
   */
  function TruncatedNumber(s: string): Option<int> {
    var rest := TrimStart(s);
    var t := TrimEnd(rest);
    if NoSeparator(s[..|s| - |rest|]) && NoSeparator(rest[|t|..]) then SignedPart(t) else None
  }

  /**
   * The percentage the hook writes for an event, or `None` when it writes
   * nothing: `downloading` writes the truncated percent when it parses,
   * `finished` writes 100, any other status is ignored.
   */
  function HookUpdate(e: HookEvent): (r: Option<int>)
    ensures e.status != "downloading" && e.status != "finished" ==> r == None
    ensures e.status == "finished" ==> r == Some(100)
  {
    if e.status == "downloading" then TruncatedNumber(PercentText(e))
    else if e.status == "finished" then Some(100)
    else None
  }

  // ------------------------------------------ decimal notation, as printed

  function DigitChar(d: nat): (c: char)
    requires d < 10
    ensures IsDigit(c) && c as int - '0' as int == d
  {
    ('0' as int + d) as char
  }

  /** The decimal digits of `n`, without leading zeros. */
  function Decimal(n: nat): string
    decreases n
  {
    if n < 10 then [DigitChar(n)] else Decimal(n / 10) + [DigitChar(n % 10)]
  }

  /** Reading the digits of a number gives the number back. */
  lemma {:induction false} DecimalRoundTrip(n: nat)
    ensures Decimal(n) != [] && AllDigits(Decimal(n))
    ensures DigitsValue(Decimal(n)) == n
    decreases n
  {
    if n >= 10 {
      DecimalRoundTrip(n / 10);
      var s := Decimal(n);
      assert s[..|s| - 1] == Decimal(n / 10);
    }
  }

  lemma IndexOfAfter(a: string, c: char, t: string)
    requires Excludes(a, c)
    ensures IndexOf(a + [c] + t, c) == |a|
    decreases |a|
  {
    if a != [] {
      assert (a + [c] + t)[1..] == a[1..] + [c] + t;
      IndexOfAfter(a[1..], c, t);
    }
  }

  /**
   * Unsigned decimal notation split into its parts: the integer digits, an
   * optional decimal point and the fraction digits after it, with at least
   * one digit in all.
   */
  predicate UnsignedParts(body: string, whole: string, point: bool, fraction: string) {
    && AllDigits(whole) && AllDigits(fraction) && |whole| + |fraction| > 0
    && (point || fraction == "")
    && body == whole + (if point then "." else "") + fraction
  }

  /** The notation `float` accepts here: an optional sign, then unsigned decimal notation. */
  predicate DecimalParts(t: string, sign: string, whole: string, point: bool, fraction: string) {
    && (sign == "" || sign == "+" || sign == "-")
    && |sign| <= |t| && t[..|sign|] == sign
    && UnsignedParts(t[|sign|..], whole, point, fraction)
  }

  /** What `int(float(...))` makes of those parts: the integer digits' value with the sign applied. */
  function SignedValue(sign: string, whole: string): int
    requires AllDigits(whole)
  {
    if sign == "-" then -(DigitsValue(whole) as int) else DigitsValue(whole)
  }

  lemma DigitsExcludePoint(s: string)
    requires AllDigits(s)
    ensures Excludes(s, '.')
  {
    forall k | 0 <= k < |s| ensures s[k] != '.' { assert IsDigit(s[k]); }
  }

  /** Unsigned notation reads back as the value of its integer digits. */
  lemma UnsignedPartComplete(body: string, whole: string, point: bool, fraction: string)
    requires UnsignedParts(body, whole, point, fraction)
    ensures UnsignedPart(body) == Some(DigitsValue(whole))
  {
    DigitsExcludePoint(whole);
    if point {
      assert body == whole + ['.'] + fraction;
      IndexOfAfter(whole, '.', fraction);
      assert body[..|whole|] == whole;
      assert body[|whole| + 1..] == fraction;
    } else {
      assert body == whole;
      assert IndexOf(body, '.') == |whole|;
      assert body[..|whole|] == whole;
    }
  }

  /** Only unsigned notation has an unsigned value, and it is the value of the integer digits. */
  lemma UnsignedPartSound(body: string)
    requires UnsignedPart(body).Some?
    ensures exists whole, point, fraction ::
      UnsignedParts(body, whole, point, fraction) && UnsignedPart(body).value == DigitsValue(whole)
  {
    var k := IndexOf(body, '.');
    var whole := body[..k];
    var point := k < |body|;
    var fraction := if point then body[k + 1..] else "";
    if point {
      assert body == whole + "." + fraction;
    } else {
      assert body == whole + "" + "";
    }
    assert UnsignedParts(body, whole, point, fraction);
  }

  /** A leading sign is read off and applied to what follows it. */
  lemma SignedPartOfSign(c: char, body: string)
    requires c == '+' || c == '-'
    ensures SignedPart([c] + body) == match UnsignedPart(body)
      case None => None
      case Some(v) => Some(if c == '-' then -(v as int) else v as int)
  {
    assert ([c] + body)[1..] == body;
  }

  /** Text that does not start with a sign is read as it stands. */
  lemma SignedPartOfUnsigned(body: string)
    requires body == [] || (body[0] != '+' && body[0] != '-')
    ensures SignedPart(body) == match UnsignedPart(body)
      case None => None
      case Some(v) => Some(v as int)
  {
  }

  /** Unsigned notation starts with a digit or the point, never with a sign. */
  lemma UnsignedStart(body: string, whole: string, point: bool, fraction: string)
    requires UnsignedParts(body, whole, point, fraction)
    ensures body != [] && body[0] != '+' && body[0] != '-'
  {
    if whole != [] {
      assert body[0] == whole[0] && IsDigit(whole[0]);
    } else {
      assert body[0] == '.';
    }
  }

  /** Every text in the notation parses, to the signed value of its integer digits. */
  lemma SignedPartComplete(t: string, sign: string, whole: string, point: bool, fraction: string)
    requires DecimalParts(t, sign, whole, point, fraction)
    ensures SignedPart(t) == Some(SignedValue(sign, whole))
  {
    var body := t[|sign|..];
    UnsignedPartComplete(body, whole, point, fraction);
    if sign == "" {
      assert t == body;
      UnsignedStart(body, whole, point, fraction);
      SignedPartOfUnsigned(body);
    } else {
      assert t == [sign[0]] + body;
      SignedPartOfSign(sign[0], body);
    }
  }

  /** Only text in the notation parses, and its value is the signed value of its integer digits. */
  lemma SignedPartSound(t: string)
    requires SignedPart(t).Some?
    ensures exists sign, whole, point, fraction ::
      DecimalParts(t, sign, whole, point, fraction) && SignedPart(t).value == SignedValue(sign, whole)
  {
    var sign: string := if t != [] && (t[0] == '-' || t[0] == '+') then [t[0]] else [];
    var body := t[|sign|..];
    if sign == [] {
      assert body == t;
      SignedPartOfUnsigned(t);
    } else {
      assert t == [t[0]] + body;
      SignedPartOfSign(t[0], body);
    }
    UnsignedPartSound(body);
    var whole, point, fraction :|
      UnsignedParts(body, whole, point, fraction) && UnsignedPart(body).value == DigitsValue(whole);
    assert DecimalParts(t, sign, whole, point, fraction);
  }

  /** An optional sign, digits, a decimal point and a fraction: the signed value of the digits. */
  lemma SignedPartOfDecimal(sign: string, digits: string, fraction: string)
    requires sign == "" || sign == "+" || sign == "-"
    requires digits != [] && AllDigits(digits) && AllDigits(fraction)
    ensures SignedPart(sign + (digits + "." + fraction)) == Some(SignedValue(sign, digits))
  {
    var t := sign + (digits + "." + fraction);
    assert t[..|sign|] == sign && t[|sign|..] == digits + "." + fraction;
    assert UnsignedParts(t[|sign|..], digits, true, fraction);
    SignedPartComplete(t, sign, digits, true, fraction);
  }

  lemma DecimalUnpadded(sign: string, digits: string, fraction: string)
    requires sign == "" || sign == "+" || sign == "-"
    requires digits != [] && AllDigits(digits) && AllDigits(fraction)
    ensures Unpadded(sign + (digits + "." + fraction))
  {
    var body := digits + "." + fraction;
    var s := sign + body;
    assert body[0] == digits[0] && IsDigit(body[0]);
    assert s[0] == if sign == "" then body[0] else sign[0];
    assert s[|s| - 1] == if fraction == "" then '.' else fraction[|fraction| - 1];
    if fraction != "" { assert IsDigit(fraction[|fraction| - 1]); }
  }

  /** Text without surrounding white space is parsed as it stands. */
  lemma TruncatedNumberUnpadded(s: string)
    requires Unpadded(s)
    ensures TruncatedNumber(s) == SignedPart(s)
  {
    assert [] + s == s && s + [] == s;
    TrimStartBlankPrefix([], s);
    TrimEndBlankSuffix(s, []);
    assert s[..0] == [] && s[|s|..] == [];
  }

  /**
   * White-space padding around a number is dropped, unless it holds an
   * information separator, which `float()` rejects.
   */
  lemma TruncatedNumberOfPadded(a: string, t: string, b: string)
    requires IsBlank(a) && IsBlank(b) && Unpadded(t) && t != []
    ensures TruncatedNumber(a + t + b) == if NoSeparator(a) && NoSeparator(b) then SignedPart(t) else None
  {
    var s := a + t + b;
    assert s == a + (t + b) && (t + b)[0] == t[0];
    TrimStartBlankPrefix(a, t + b);
    TrimEndBlankSuffix(t, b);
    assert s[..|s| - |t + b|] == a;
    assert (t + b)[|t|..] == b;
  }

  /** Blank text is no number. */
  lemma BlankIsNotANumber(s: string)
    requires IsBlank(s)
    ensures TruncatedNumber(s) == None
  {
  }

  /**
   * `int(float(sign + digits + "." + fraction))` is the signed value of the
   * digits: the fraction is cut off toward zero whatever the sign.
   */
  lemma SignedDecimalTruncates(sign: string, digits: string, fraction: string)
    requires sign == "" || sign == "+" || sign == "-"
    requires digits != [] && AllDigits(digits) && AllDigits(fraction)
    ensures TruncatedNumber(sign + (digits + "." + fraction)) == Some(SignedValue(sign, digits))
  {
    SignedPartOfDecimal(sign, digits, fraction);
    DecimalUnpadded(sign, digits, fraction);
    TruncatedNumberUnpadded(sign + (digits + "." + fraction));
  }

  function Spaces(n: nat): (s: string)
    ensures |s| == n && IsBlank(s)
  {
    seq(n, _ => ' ')
  }

  /** A percent string as the provider prints it: right-aligned, one decimal, a `%` sign. */
  function FormatPercent(n: nat, tenths: nat, pad: nat): string
    requires tenths < 10
  {
    Spaces(pad) + (Decimal(n) + "." + [DigitChar(tenths)] + "%")
  }

  /** The hook's clean-up of a padded number followed by `%` leaves the number. */
  lemma PercentTextOfPadded(status: string, pad: nat, number: string)
    requires number != [] && !IsSpace(number[0]) && Excludes(number, '%')
    ensures PercentText(HookEvent(status, Some(Spaces(pad) + (number + "%")))) == number
  {
    var core := number + "%";
    assert core[0] == number[0] && core[|core| - 1] == '%';
    assert Spaces(pad) + core + "" == Spaces(pad) + core;
    StripPadding(Spaces(pad), core, "");
    ReplaceAllPlainPrefix(number, "%", "%", "");
    assert ReplaceAll("%", "%", "") == "";
  }

  /** A `downloading` event carrying a printed percentage records its integer part. */
  lemma HookReadsFormattedPercent(n: nat, tenths: nat, pad: nat)
    requires tenths < 10
    ensures HookUpdate(HookEvent("downloading", Some(FormatPercent(n, tenths, pad)))) == Some(n)
  {
    DecimalRoundTrip(n);
    var digits := Decimal(n);
    var fraction := [DigitChar(tenths)];
    var number := digits + "." + fraction;
    assert number[0] == digits[0] && IsDigit(number[0]);
    assert Excludes(number, '%') by {
      forall k | 0 <= k < |number| ensures number[k] != '%' {
        if k < |digits| { assert number[k] == digits[k] && IsDigit(digits[k]); }
      }
    }
    PercentTextOfPadded("downloading", pad, number);
    SignedDecimalTruncates("", digits, fraction);
    assert "" + (digits + "." + fraction) == number;
  }

  /** A `downloading` event without a percent string resets the entry to 0. */
  lemma MissingPercentIsZero()
    ensures HookUpdate(HookEvent("downloading", None)) == Some(0)
  {
    assert FormatPercent(0, 0, 0) == DefaultPercentStr;
    HookReadsFormattedPercent(0, 0, 0);
  }

  lemma NotANumber()
    ensures SignedPart("N/A") == None
  {
    var t := "N/A";
    assert t[0] == 'N' && t[1] == '/' && t[2] == 'A';
    assert IndexOf(t[2..], '.') == 1;
    assert IndexOf(t[1..], '.') == 2;
    assert IndexOf(t, '.') == 3;
    assert t[..3] == t && !IsDigit(t[0]);
  }

  /** A percent string that is not a number leaves the entry as it was. */
  lemma UnparsablePercentIsIgnored()
    ensures HookUpdate(HookEvent("downloading", Some("N/A%"))) == None
  {
    var t := "N/A";
    assert Spaces(0) + (t + "%") == "N/A%";
    PercentTextOfPadded("downloading", 0, t);
    TruncatedNumberUnpadded(t);
    NotANumber();
  }

  /** A number followed by an information separator is rejected by `float()`. */
  lemma TrailingSeparatorIsNotANumber()
    ensures TruncatedNumber("5\U{1C}") == None
  {
    assert "5\U{1C}" == [] + "5" + "\U{1C}";
    assert IsSeparator("\U{1C}"[0]);
    TruncatedNumberOfPadded([], "5", "\U{1C}");
  }

  /**
   * A percent string with an information separator before the `%`:
   * `str.strip()` keeps the separator, `float()` rejects it, and the entry
   * is left as it was.
   */
  lemma SeparatorInPercentIsIgnored()
    ensures HookUpdate(HookEvent("downloading", Some("5\U{1C}%"))) == None
  {
    var number := "5\U{1C}";
    assert Spaces(0) + (number + "%") == "5\U{1C}%";
    PercentTextOfPadded("downloading", 0, number);
    TrailingSeparatorIsNotANumber();
  }

  // ----------------------------------------------------------- outcome

  /** How the provider call ended: the prepared file name, or the message of the exception. */
  datatype Outcome = Fetched(preparedName: string) | FetchFailed(message: string)

  /** The chained `.replace('.webm', '.mp3').replace('.m4a', '.mp3')` on the prepared file name. */
  function NormalizeExtension(name: string): (r: string)
    ensures !Contains(r, ".webm") && !Contains(r, ".m4a")
  {
    var once := ReplaceAll(name, ".webm", ".mp3");
    ReplaceAllAvoids(name, ".webm", ".mp3", ".webm", 1);
    ReplaceAllAvoids(once, ".m4a", ".mp3", ".m4a", 2);
    ReplaceAllAvoids(once, ".m4a", ".mp3", ".webm", 1);
    ReplaceAll(once, ".m4a", ".mp3")
  }

  /** A name that contains neither extension is left alone. */
  lemma NormalizeKeepsOtherNames(name: string)
    requires !Contains(name, ".webm") && !Contains(name, ".m4a")
    ensures NormalizeExtension(name) == name
  {
    ReplaceAllAbsent(name, ".webm", ".mp3");
    ReplaceAllAbsent(name, ".m4a", ".mp3");
  }

  /** Normalising twice is normalising once. */
  lemma NormalizeIdempotent(name: string)
    ensures NormalizeExtension(NormalizeExtension(name)) == NormalizeExtension(name)
  {
    NormalizeKeepsOtherNames(NormalizeExtension(name));
  }

  /**
   * For a dot-free stem, `.webm` and `.m4a` become `.mp3` and any other
   * extension (`.opus`, say) is kept as it is.
   */
  lemma NormalizeSwapsExtension(stem: string)
    requires Excludes(stem, '.')
    ensures NormalizeExtension(stem + ".webm") == stem + ".mp3"
    ensures NormalizeExtension(stem + ".m4a") == stem + ".mp3"
    ensures NormalizeExtension(stem + ".opus") == stem + ".opus"
  {
    assert ReplaceAll(".webm", ".webm", ".mp3") == ".mp3" + ReplaceAll("", ".webm", ".mp3") == ".mp3";
    assert ReplaceAll(".m4a", ".webm", ".mp3") == ".m4a";
    assert ReplaceAll(".mp3", ".m4a", ".mp3") == ['.'] + ReplaceAll("mp3", ".m4a", ".mp3") == ".mp3";
    assert ReplaceAll(".m4a", ".m4a", ".mp3") == ".mp3" + ReplaceAll("", ".m4a", ".mp3") == ".mp3";
    assert ".opus"[..5][1] != ".webm"[1];
    assert ReplaceAll(".opus", ".webm", ".mp3") == ['.'] + ReplaceAll("opus", ".webm", ".mp3") == ".opus";
    assert ReplaceAll(".opus", ".m4a", ".mp3") == ['.'] + ReplaceAll("opus", ".m4a", ".mp3") == ".opus";
    ReplaceAllPlainPrefix(stem, ".webm", ".webm", ".mp3");
    ReplaceAllPlainPrefix(stem, ".mp3", ".m4a", ".mp3");
    ReplaceAllPlainPrefix(stem, ".m4a", ".webm", ".mp3");
    ReplaceAllPlainPrefix(stem, ".m4a", ".m4a", ".mp3");
    ReplaceAllPlainPrefix(stem, ".opus", ".webm", ".mp3");
    ReplaceAllPlainPrefix(stem, ".opus", ".m4a", ".mp3");
  }
}

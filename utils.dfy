/**
 * The string and arithmetic helpers of utils.py: duration formatting, the
 * filename whitelist, temporary filenames and the YouTube host test.
 */
module Utils {
  import opened Wrappers
  import opened Strings

  // ---------------------------------------------------------------------------
  // format_duration

  /** Python's `f"{n:02d}"` for a non-negative integer. */
  function Pad2(n: nat): (r: string)
    ensures |r| >= 2 && AllDigits(r) && ParseDecimal(r) == n
    ensures n < 100 ==> |r| == 2
  {
    if n < 10 then
      var r := "0" + Decimal(n);
      DecimalRoundTrip(n);
      assert r[..1] == "0" && r[1..] == Decimal(n) == [DigitChar(n)];
      assert ParseDecimal("0") == 0 by { assert "0"[..0] == []; }
      r
    else
      DecimalRoundTrip(n);
      assert |Decimal(n)| >= 2 by { assert Decimal(n) == Decimal(n / 10) + [DigitChar(n % 10)]; }
      assert n < 100 ==> Decimal(n / 10) == [DigitChar(n / 10)];
      Decimal(n)
  }

  /** format_duration: "MM:SS" below an hour, "HH:MM:SS" from an hour on, "00:00" for zero. */
  function FormatDuration(seconds: int): (r: string)
    ensures seconds == 0 ==> r == "00:00"
    ensures 0 <= seconds < 3600 ==> |r| == 5
  {
    if seconds == 0 then
      "00:00"
    else
      var hours := seconds / 3600;
      var minutes := (seconds % 3600) / 60;
      var secs := seconds % 60;
      if hours > 0 then
        Pad2(hours) + ":" + Pad2(minutes) + ":" + Pad2(secs)
      else
        Pad2(minutes) + ":" + Pad2(secs)
  }

  lemma DigitsHaveNoColon(s: string)
    requires AllDigits(s)
    ensures ':' !in s
  {
    forall i | 0 <= i < |s| ensures s[i] != ':' {
      assert IsDigit(s[i]);
    }
  }

  /** "a:b" splits on ':' into its two digit fields. */
  lemma SplitTwoFields(a: string, b: string)
    requires AllDigits(a) && AllDigits(b)
    ensures Split(a + ":" + b, ":") == [a, b]
  {
    DigitsHaveNoColon(a);
    DigitsHaveNoColon(b);
    assert Join([a, b], ":") == a + ":" + b by {
      assert [a, b][1..] == [b];
    }
    SplitJoin([a, b], ':');
  }

  /** "a:b:c" splits on ':' into its three digit fields. */
  lemma SplitThreeFields(a: string, b: string, c: string)
    requires AllDigits(a) && AllDigits(b) && AllDigits(c)
    ensures Split(a + ":" + b + ":" + c, ":") == [a, b, c]
  {
    DigitsHaveNoColon(a);
    DigitsHaveNoColon(b);
    DigitsHaveNoColon(c);
    assert Join([b, c], ":") == b + ":" + c by {
      assert [b, c][1..] == [c];
    }
    assert Join([a, b, c], ":") == a + ":" + Join([b, c], ":") by {
      assert [a, b, c][1..] == [b, c];
    }
    assert a + ":" + b + ":" + c == a + ":" + (b + ":" + c);
    SplitJoin([a, b, c], ':');
  }

  /** Reading a clock string back: minutes and seconds, or hours, minutes and seconds. */
  function ClockValue(r: string): Option<int> {
    ClockFields(Split(r, ":"))
  }

  /** The value of the fields of a clock string, when they are two or three runs of digits. */
  function ClockFields(p: seq<string>): Option<int> {
    if |p| == 3 && AllDigits(p[0]) && AllDigits(p[1]) && AllDigits(p[2]) then
      Some(ParseDecimal(p[0]) * 3600 + ParseDecimal(p[1]) * 60 + ParseDecimal(p[2]))
    else if |p| == 2 && AllDigits(p[0]) && AllDigits(p[1]) then
      Some(ParseDecimal(p[0]) * 60 + ParseDecimal(p[1]))
    else
      None
  }

  lemma {:induction false} MulAtLeast(k: int, d: nat)
    requires k >= 1
    ensures k * d >= d
    decreases k
  {
    if k > 1 {
      MulAtLeast(k - 1, d);
      assert k * d == (k - 1) * d + d;
    }
  }

  /** Euclidean division is determined by quotient and remainder. */
  lemma ModUnique(x: int, d: nat, q: int, r: int)
    requires d > 0 && x == q * d + r && 0 <= r < d
    ensures x / d == q && x % d == r
  {
    var q', r' := x / d, x % d;
    assert (q' - q) * d == r - r' by {
      assert q' * d + r' == q * d + r;
      assert (q' - q) * d == q' * d - q * d;
    }
    if q' > q {
      MulAtLeast(q' - q, d);
    } else if q' < q {
      MulAtLeast(q - q', d);
    }
  }

  /** Hours, minutes and seconds recombine to the input. */
  lemma ClockArithmetic(x: int)
    ensures (x % 3600) % 60 == x % 60
    ensures x == (x / 3600) * 3600 + ((x % 3600) / 60) * 60 + x % 60
    ensures x % 3600 == ((x % 3600) / 60) * 60 + x % 60
  {
    var q, r := x / 3600, x % 3600;
    var m, s := r / 60, r % 60;
    assert x == (q * 60 + m) * 60 + s;
    ModUnique(x, 60, q * 60 + m, s);
  }

  /** The two shapes of a formatted duration, from an hour on and below one. */
  lemma FormatFromAnHour(seconds: int)
    requires seconds >= 3600
    ensures FormatDuration(seconds) == Pad2(seconds / 3600) + ":" + Pad2((seconds % 3600) / 60) + ":" + Pad2(seconds % 60)
  {
  }

  lemma FormatBelowAnHour(seconds: int)
    requires seconds < 3600 && seconds != 0
    ensures FormatDuration(seconds) == Pad2((seconds % 3600) / 60) + ":" + Pad2(seconds % 60)
  {
    assert seconds / 3600 <= 0;
  }

  /** Three fields from one hour on, two below. */
  lemma FormatDurationFields(seconds: int)
    ensures |Split(FormatDuration(seconds), ":")| == if seconds >= 3600 then 3 else 2
  {
    if seconds == 0 {
      SplitTwoFields("00", "00");
      assert "00" + ":" + "00" == "00:00";
    } else if seconds >= 3600 {
      FormatFromAnHour(seconds);
      SplitThreeFields(Pad2(seconds / 3600), Pad2((seconds % 3600) / 60), Pad2(seconds % 60));
    } else {
      FormatBelowAnHour(seconds);
      SplitTwoFields(Pad2((seconds % 3600) / 60), Pad2(seconds % 60));
    }
  }

  lemma ClockValueOfFields(r: string, p: seq<string>)
    requires Split(r, ":") == p
    ensures ClockValue(r) == ClockFields(p)
  {
  }

  lemma ClockFieldsTwo(a: string, b: string, v: int)
    requires AllDigits(a) && AllDigits(b)
    requires v == ParseDecimal(a) * 60 + ParseDecimal(b)
    ensures ClockFields([a, b]) == Some(v)
  {
    var p := [a, b];
    assert |p| == 2 && p[0] == a && p[1] == b;
  }

  lemma ClockFieldsThree(a: string, b: string, c: string, v: int)
    requires AllDigits(a) && AllDigits(b) && AllDigits(c)
    requires v == ParseDecimal(a) * 3600 + ParseDecimal(b) * 60 + ParseDecimal(c)
    ensures ClockFields([a, b, c]) == Some(v)
  {
    var p := [a, b, c];
    assert |p| == 3 && p[0] == a && p[1] == b && p[2] == c;
  }

  /** Two digit fields joined by ':' read back as minutes and seconds. */
  lemma ClockValueOfDigitsTwo(a: string, b: string, v: int)
    requires AllDigits(a) && AllDigits(b)
    requires v == ParseDecimal(a) * 60 + ParseDecimal(b)
    ensures ClockValue(a + ":" + b) == Some(v)
  {
    SplitTwoFields(a, b);
    ClockValueOfFields(a + ":" + b, [a, b]);
    ClockFieldsTwo(a, b, v);
  }

  /** Three digit fields joined by ':' read back as hours, minutes and seconds. */
  lemma ClockValueOfDigitsThree(a: string, b: string, c: string, v: int)
    requires AllDigits(a) && AllDigits(b) && AllDigits(c)
    requires v == ParseDecimal(a) * 3600 + ParseDecimal(b) * 60 + ParseDecimal(c)
    ensures ClockValue(a + ":" + b + ":" + c) == Some(v)
  {
    SplitThreeFields(a, b, c);
    ClockValueOfFields(a + ":" + b + ":" + c, [a, b, c]);
    ClockFieldsThree(a, b, c, v);
  }

  /** "MM:SS" reads back as minutes and seconds. */
  lemma ClockValueTwo(m: nat, sec: nat, v: int)
    requires v == m * 60 + sec
    ensures ClockValue(Pad2(m) + ":" + Pad2(sec)) == Some(v)
  {
    ClockValueOfDigitsTwo(Pad2(m), Pad2(sec), v);
  }

  /** "HH:MM:SS" reads back as hours, minutes and seconds. */
  lemma ClockValueThree(h: nat, m: nat, sec: nat, v: int)
    requires v == h * 3600 + m * 60 + sec
    ensures ClockValue(Pad2(h) + ":" + Pad2(m) + ":" + Pad2(sec)) == Some(v)
  {
    ClockValueOfDigitsThree(Pad2(h), Pad2(m), Pad2(sec), v);
  }

  lemma ReadsBackFromAnHour(seconds: int)
    requires seconds >= 3600
    ensures ClockValue(FormatDuration(seconds)) == Some(seconds)
  {
    FormatFromAnHour(seconds);
    ClockArithmetic(seconds);
    ClockValueThree(seconds / 3600, (seconds % 3600) / 60, seconds % 60, seconds);
  }

  lemma ReadsBackBelowZero(seconds: int)
    requires seconds < 0
    ensures ClockValue(FormatDuration(seconds)) == Some(seconds % 3600)
  {
    FormatBelowAnHour(seconds);
    ClockArithmetic(seconds);
    ClockValueTwo((seconds % 3600) / 60, seconds % 60, seconds % 3600);
  }

  lemma ReadsBackWithinAnHour(seconds: int)
    requires 0 < seconds < 3600
    ensures ClockValue(FormatDuration(seconds)) == Some(seconds)
  {
    FormatBelowAnHour(seconds);
    ClockArithmetic(seconds);
    ModUnique(seconds, 3600, 0, seconds);
    ClockValueTwo((seconds % 3600) / 60, seconds % 60, seconds);
  }

  lemma ReadsBackAtZero(seconds: int)
    requires seconds == 0
    ensures ClockValue(FormatDuration(seconds)) == Some(seconds)
  {
    ClockValueTwo(0, 0, 0);
    assert Pad2(0) + ":" + Pad2(0) == "00:00";
  }

  /**
   * The formatted duration reads back as the number of seconds; a negative
   * input wraps to its remainder modulo one hour, since the hour field is dropped.
   */
  lemma FormatDurationReadsBack(seconds: int)
    ensures seconds >= 0 ==> ClockValue(FormatDuration(seconds)) == Some(seconds)
    ensures seconds < 0 ==> ClockValue(FormatDuration(seconds)) == Some(seconds % 3600)
  {
    if seconds < 0 {
      ReadsBackBelowZero(seconds);
    } else if seconds == 0 {
      ReadsBackAtZero(seconds);
    } else if seconds < 3600 {
      ReadsBackWithinAnHour(seconds);
    } else {
      ReadsBackFromAnHour(seconds);
    }
  }

  // ---------------------------------------------------------------------------
  // safe_filename

  predicate IsAsciiLetter(c: char) {
    'a' <= c <= 'z' || 'A' <= c <= 'Z'
  }

  /** The characters safe_filename keeps. */
  predicate Allowed(c: char) {
    IsAsciiLetter(c) || IsDigit(c) || c == ' ' || c == '.' || c == '_' || c == '-'
  }

  /** The list comprehension: the allowed characters of `s`, in order. */
  function KeepAllowed(s: string): (r: string)
    ensures forall i :: 0 <= i < |r| ==> Allowed(r[i])
    ensures |r| <= |s|
  {
    if s == [] then []
    else (if Allowed(s[0]) then [s[0]] else []) + KeepAllowed(s[1..])
  }

  /** Every allowed character is kept, as often as it occurs. */
  lemma {:induction false} KeepAllowedCounts(s: string)
    ensures forall c :: Allowed(c) ==> multiset(KeepAllowed(s))[c] == multiset(s)[c]
  {
    if s != [] {
      assert s == [s[0]] + s[1..];
      KeepAllowedCounts(s[1..]);
    }
  }

  /** The filter works character by character: it distributes over concatenation. */
  lemma {:induction false} KeepAllowedAppend(a: string, b: string)
    ensures KeepAllowed(a + b) == KeepAllowed(a) + KeepAllowed(b)
  {
    if a != [] {
      var head := if Allowed(a[0]) then [a[0]] else [];
      assert (a + b)[0] == a[0];
      assert (a + b)[1..] == a[1..] + b;
      assert KeepAllowed(a + b) == head + KeepAllowed(a[1..] + b);
      assert KeepAllowed(a) == head + KeepAllowed(a[1..]);
      KeepAllowedAppend(a[1..], b);
    } else {
      assert a + b == b;
    }
  }

  /** `a` can be obtained from `b` by deleting characters. */
  ghost predicate IsSubsequence(a: string, b: string)
    decreases |b|
  {
    if a == [] then true
    else if b == [] then false
    else if a[0] == b[0] then IsSubsequence(a[1..], b[1..])
    else IsSubsequence(a, b[1..])
  }

  lemma {:induction false} KeepAllowedIsSubsequence(s: string)
    ensures IsSubsequence(KeepAllowed(s), s)
  {
    if s != [] {
      var rest := KeepAllowed(s[1..]);
      KeepAllowedIsSubsequence(s[1..]);
      if Allowed(s[0]) {
        assert ([s[0]] + rest)[1..] == rest;
      } else {
        assert KeepAllowed(s) == rest;
        if rest != [] {
          assert Allowed(rest[0]);
        }
      }
    }
  }

  lemma {:induction false} SubsequencePrefix(a: string, b: string, n: nat)
    requires IsSubsequence(a, b) && n <= |a|
    ensures IsSubsequence(a[..n], b)
    decreases |b|
  {
    if n > 0 {
      if a[0] == b[0] {
        SubsequencePrefix(a[1..], b[1..], n - 1);
        assert a[..n][1..] == a[1..][..n - 1];
      } else {
        SubsequencePrefix(a, b[1..], n);
      }
    }
  }

  lemma {:induction false} KeepAllowedIdentity(s: string)
    requires forall i :: 0 <= i < |s| ==> Allowed(s[i])
    ensures KeepAllowed(s) == s
  {
    if s != [] {
      KeepAllowedIdentity(s[1..]);
    }
  }

  /** safe_filename: keep letters, digits, ' ', '.', '_' and '-', then drop trailing whitespace. */
  function SafeFilename(filename: string): (r: string)
    ensures forall i :: 0 <= i < |r| ==> Allowed(r[i])
    ensures '/' !in r
    ensures r == [] || r[|r| - 1] != ' '
  {
    var kept := KeepAllowed(filename);
    var r := RStrip(kept);
    assert forall i :: 0 <= i < |r| ==> r[i] == kept[i];
    r
  }

  /** The safe name keeps the surviving characters in their original order. */
  lemma SafeFilenameIsSubsequence(filename: string)
    ensures IsSubsequence(SafeFilename(filename), filename)
  {
    var kept := KeepAllowed(filename);
    KeepAllowedIsSubsequence(filename);
    SubsequencePrefix(kept, filename, |RStrip(kept)|);
  }

  /** Only the trailing spaces of the filtered name are removed. */
  lemma SafeFilenameDropsOnlyTrailingSpaces(filename: string)
    ensures var kept := KeepAllowed(filename);
      && kept[..|SafeFilename(filename)|] == SafeFilename(filename)
      && forall i :: |SafeFilename(filename)| <= i < |kept| ==> kept[i] == ' '
  {
  }

  lemma SafeFilenameIdempotent(filename: string)
    ensures SafeFilename(SafeFilename(filename)) == SafeFilename(filename)
  {
    var r := SafeFilename(filename);
    KeepAllowedIdentity(r);
  }

  // ---------------------------------------------------------------------------
  // generate_temp_filename

  /** generate_temp_filename with the clock reading `timestamp` (whole seconds) as a parameter. */
  function GenerateTempFilename(prefix: string, extension: string, timestamp: nat): (r: string)
    ensures |r| == |prefix| + |Decimal(timestamp)| + |extension| + 2
    ensures StartsWith(r, prefix + "_") && EndsWith(r, "." + extension)
    ensures r[|prefix| + 1..|r| - |extension| - 1] == Decimal(timestamp)
  {
    var r := prefix + "_" + Decimal(timestamp) + "." + extension;
    assert r == (prefix + "_") + Decimal(timestamp) + ("." + extension);
    r
  }

  /** The default arguments of generate_temp_filename. */
  const DefaultTempPrefix := "yt_video"
  const DefaultTempExtension := "mp4"

  /** generate_temp_filename called without arguments: "yt_video_<timestamp>.mp4". */
  function DefaultTempFilename(timestamp: nat): (r: string)
    ensures |r| == 13 + |Decimal(timestamp)|
    ensures StartsWith(r, "yt_video_") && EndsWith(r, ".mp4")
    ensures r[9..|r| - 4] == Decimal(timestamp)
  {
    assert DefaultTempPrefix + "_" == "yt_video_";
    assert "." + DefaultTempExtension == ".mp4";
    GenerateTempFilename(DefaultTempPrefix, DefaultTempExtension, timestamp)
  }

  /** The name determines the timestamp it was made at. */
  lemma TempFilenameTimestamp(prefix: string, extension: string, timestamp: nat)
    ensures var r := GenerateTempFilename(prefix, extension, timestamp);
      ParseDecimal(r[|prefix| + 1..|r| - |extension| - 1]) == timestamp
  {
    DecimalRoundTrip(timestamp);
  }

  /** Names made at different seconds differ. */
  lemma TempFilenameInjective(prefix: string, extension: string, t1: nat, t2: nat)
    requires GenerateTempFilename(prefix, extension, t1) == GenerateTempFilename(prefix, extension, t2)
    ensures t1 == t2
  {
    TempFilenameTimestamp(prefix, extension, t1);
    TempFilenameTimestamp(prefix, extension, t2);
  }

  // ---------------------------------------------------------------------------
  // is_valid_youtube_url

  /** is_valid_youtube_url over the network location that urlparse extracts. */
  function IsValidYoutubeNetloc(netloc: string): (r: bool)
    ensures r <==> Contains(netloc, "youtube.com") || Contains(netloc, "youtu.be")
  {
    In(netloc, "youtube.com") || In(netloc, "youtu.be")
  }

  /** Any host merely containing one of the two names is accepted. */
  lemma AcceptsAnyHostContaining(before: string, after: string)
    ensures IsValidYoutubeNetloc(before + "youtube.com" + after)
    ensures IsValidYoutubeNetloc(before + "youtu.be" + after)
  {
    var s, t := before + "youtube.com" + after, before + "youtu.be" + after;
    assert s[|before|..|before| + 11] == "youtube.com";
    assert OccursAt(s, "youtube.com", |before|);
    assert t[|before|..|before| + 8] == "youtu.be";
    assert OccursAt(t, "youtu.be", |before|);
  }

  lemma RejectsOtherHosts()
    ensures !IsValidYoutubeNetloc("vimeo.com")
    ensures !IsValidYoutubeNetloc("")
  {
    var s := "vimeo.com";
    assert s[0..8][0] != "youtu.be"[0] && s[1..9][0] != "youtu.be"[0];
  }
}

/** frontend/src/components/admin/VideoManager.jsx: the administrator's video
    table and edit form. Durations travel as whole seconds; the form edits them
    in whole minutes, and the table shows them as hours and minutes. */
module VideoManager {
  import opened Wrappers
  import opened Strings
  import TagInput

  // ---------------------------------------------------------------------------
  // `formatDuration`

  /** `formatDuration(duration)`: whole minutes, split into hours and the
      minutes left over; the hours are shown only when there is at least one. */
  function FormatDuration(duration: nat): string
  {
    var totalMinutes := duration / 60;
    var hours := totalMinutes / 60;
    var minutes := totalMinutes % 60;
    if hours > 0 then NatToString(hours) + "h " + NatToString(minutes) + "m"
    else NatToString(minutes) + "m"
  }

  /** Number of decimal digits `s` starts with. */
  function DigitCount(s: string): (n: nat)
    ensures n <= |s|
    ensures forall i :: 0 <= i < n ==> IsDigit(s[i])
    ensures n < |s| ==> !IsDigit(s[n])
  {
    if s != [] && IsDigit(s[0]) then 1 + DigitCount(s[1..]) else 0
  }

  /** Reads `"<m>m"` back as m. */
  function ReadMinutes(t: string): Option<nat>
  {
    var j := DigitCount(t);
    if j > 0 && t[j..] == "m" then Some(DigitsValue(t[..j])) else None
  }

  /** Reads a shown duration back as (hours, minutes): `"<h>h <m>m"` or `"<m>m"`. */
  function ReadDuration(shown: string): Option<(nat, nat)>
  {
    var k := DigitCount(shown);
    if k == 0 then None
    else if shown[k..] == "m" then Some((0, DigitsValue(shown[..k])))
    else if k + 1 < |shown| && shown[k] == 'h' && shown[k + 1] == ' ' then
      match ReadMinutes(shown[k + 2..])
      case Some(m) => Some((DigitsValue(shown[..k]), m))
      case None => None
    else None
  }

  /** A number followed by text that does not start with a digit. */
  lemma NumberThen(n: nat, rest: string)
    requires rest == [] || !IsDigit(rest[0])
    ensures DigitCount(NatToString(n) + rest) == |NatToString(n)|
    ensures (NatToString(n) + rest)[..|NatToString(n)|] == NatToString(n)
    ensures (NatToString(n) + rest)[|NatToString(n)|..] == rest
  {
    var s := NatToString(n) + rest;
    var k := |NatToString(n)|;
    assert forall i :: 0 <= i < k ==> IsDigit(s[i]);
    assert s[..k] == NatToString(n);
    assert s[k..] == rest;
    DigitCountOf(s, k);
  }

  lemma {:induction false} DigitCountOf(s: string, k: nat)
    requires k <= |s|
    requires forall i :: 0 <= i < k ==> IsDigit(s[i])
    requires k == |s| || !IsDigit(s[k])
    ensures DigitCount(s) == k
  {
    if k > 0 {
      assert forall i :: 0 <= i < k - 1 ==> s[1..][i] == s[i + 1];
      DigitCountOf(s[1..], k - 1);
    }
  }

  /** Under an hour only the minutes are shown, and read back. */
  lemma ReadMinutesOnly(minutes: nat)
    ensures ReadDuration(NatToString(minutes) + "m") == Some((0, minutes))
  {
    DigitsValueOfNatToString(minutes);
    NumberThen(minutes, "m");
  }

  lemma ReadMinutesOf(minutes: nat)
    ensures ReadMinutes(NatToString(minutes) + "m") == Some(minutes)
  {
    DigitsValueOfNatToString(minutes);
    NumberThen(minutes, "m");
  }

  /** The hours, then the text after "h ". */
  lemma ReadHoursThen(hours: nat, rest: string)
    requires ReadMinutes(rest).Some?
    ensures ReadDuration(NatToString(hours) + ("h " + rest)) == Some((hours, ReadMinutes(rest).value))
  {
    var h := NatToString(hours);
    var shown := h + ("h " + rest);
    NumberThen(hours, "h " + rest);
    DigitsValueOfNatToString(hours);
    assert shown[|h|..] != "m" by {
      assert shown[|h|..][0] == 'h';
    }
    assert shown[|h| + 2..] == rest;
  }

  /** From an hour on, hours and minutes are shown, and read back. */
  lemma ReadHoursAndMinutes(hours: nat, minutes: nat)
    ensures ReadDuration(NatToString(hours) + "h " + NatToString(minutes) + "m") == Some((hours, minutes))
  {
    var rest := NatToString(minutes) + "m";
    assert NatToString(hours) + "h " + NatToString(minutes) + "m" == NatToString(hours) + ("h " + rest);
    ReadMinutesOf(minutes);
    ReadHoursThen(hours, rest);
  }

  /** The shown text gives back the hours and the minutes left over. */
  lemma ReadFormatDuration(duration: nat)
    ensures ReadDuration(FormatDuration(duration)) == Some((duration / 60 / 60, duration / 60 % 60))
  {
    var hours := duration / 60 / 60;
    var minutes := duration / 60 % 60;
    if hours > 0 {
      ReadHoursAndMinutes(hours, minutes);
    } else {
      ReadMinutesOnly(minutes);
    }
  }

  /** The minutes shown are always below 60, and under a minute shows "0m". */
  lemma FormatDurationBounds(duration: nat)
    ensures ReadDuration(FormatDuration(duration)).Some?
    ensures ReadDuration(FormatDuration(duration)).value.1 < 60
    ensures duration < 60 ==> FormatDuration(duration) == "0m"
    ensures duration < 3600 ==> FormatDuration(duration) == NatToString(duration / 60) + "m"
  {
    ReadFormatDuration(duration);
  }

  /** Two durations look the same exactly when they have the same whole minutes. */
  lemma FormatDurationIff(a: nat, b: nat)
    ensures FormatDuration(a) == FormatDuration(b) <==> a / 60 == b / 60
  {
    if FormatDuration(a) == FormatDuration(b) {
      ReadFormatDuration(a);
      ReadFormatDuration(b);
      assert a / 60 == a / 60 / 60 * 60 + a / 60 % 60;
      assert b / 60 == b / 60 / 60 * 60 + b / 60 % 60;
    }
  }

  // ---------------------------------------------------------------------------
  // Minutes <-> seconds

  /** `formData.duration * 60` in `handleSubmit`. */
  function ToSeconds(minutes: int): int
  {
    minutes * 60
  }

  /** `Math.floor(video.duration / 60)` in `handleShowModal`. */
  function ToMinutes(seconds: int): int
  {
    seconds / 60
  }

  /** The minutes of a duration are the whole minutes it lasts. */
  lemma ToMinutesIff(seconds: int, minutes: int)
    ensures ToMinutes(seconds) == minutes <==> ToSeconds(minutes) <= seconds < ToSeconds(minutes) + 60
  {
  }

  /** Minutes to seconds and back is the identity. */
  lemma MinutesRoundTrip(minutes: int)
    ensures ToMinutes(ToSeconds(minutes)) == minutes
  {
    ToMinutesIff(ToSeconds(minutes), minutes);
  }

  /** Seconds to minutes and back loses less than a minute, and nothing
      exactly when the duration is whole minutes. */
  lemma SecondsRoundTrip(seconds: int)
    ensures seconds - 60 < ToSeconds(ToMinutes(seconds)) <= seconds
    ensures ToSeconds(ToMinutes(seconds)) == seconds <==> seconds % 60 == 0
  {
    ToMinutesIff(seconds, ToMinutes(seconds));
  }

  // ---------------------------------------------------------------------------
  // `parseInt(value) || 0` in `handleInputChange`

  /** The value of `c` as a digit in `radix` (10 or 16, either letter case). */
  function RadixDigit(c: char, radix: nat): Option<nat>
  {
    var v := if '0' <= c <= '9' then c as int - '0' as int
             else if 'a' <= c <= 'z' then c as int - 'a' as int + 10
             else if 'A' <= c <= 'Z' then c as int - 'A' as int + 10
             else radix;
    if v < radix then Some(v) else None
  }

  /** Number of radix digits `s` starts with. */
  function DigitRun(s: string, radix: nat): (n: nat)
    ensures n <= |s|
    ensures forall i :: 0 <= i < n ==> RadixDigit(s[i], radix).Some?
    ensures n < |s| ==> RadixDigit(s[n], radix).None?
  {
    if s != [] && RadixDigit(s[0], radix).Some? then 1 + DigitRun(s[1..], radix) else 0
  }

  /** The value of a string of radix digits. */
  function RunValue(s: string, radix: nat): nat
    requires forall i :: 0 <= i < |s| ==> RadixDigit(s[i], radix).Some?
  {
    if s == [] then 0
    else RunValue(s[..|s| - 1], radix) * radix + RadixDigit(s[|s| - 1], radix).value
  }

  /** `parseInt(s)` without a radix argument (section 19.2.5 of ECMA-262):
      leading whitespace is skipped, one sign is read, a `0x`/`0X` prefix
      selects base 16, and the longest run of digits after it is the value;
      with no digit there the result is NaN, here None. */
  function ParseInt(s: string): Option<int>
  {
    var t := TrimStart(s);
    var sign := if t != [] && t[0] == '-' then -1 else 1;
    var u := if t != [] && (t[0] == '-' || t[0] == '+') then t[1..] else t;
    var hex := |u| >= 2 && u[0] == '0' && (u[1] == 'x' || u[1] == 'X');
    var radix := if hex then 16 else 10;
    var digits := if hex then u[2..] else u;
    var k := DigitRun(digits, radix);
    if k == 0 then None else Some(sign * RunValue(digits[..k], radix))
  }

  /** The minutes field: NaN, and minus zero, become 0 through `|| 0`. */
  function DurationInput(value: string): int
  {
    match ParseInt(value)
    case None => 0
    case Some(n) => n
  }

  lemma {:induction false} RunValueDecimal(s: string)
    requires forall i :: 0 <= i < |s| ==> IsDigit(s[i])
    ensures forall i :: 0 <= i < |s| ==> RadixDigit(s[i], 10).Some?
    ensures RunValue(s, 10) == DigitsValue(s)
  {
    if s != [] {
      RunValueDecimal(s[..|s| - 1]);
    }
  }

  /** A numeral is one run of decimal digits with the numeral's value. */
  lemma NumeralRun(n: nat)
    ensures DigitRun(NatToString(n), 10) == |NatToString(n)|
    ensures RunValue(NatToString(n), 10) == n
  {
    var s := NatToString(n);
    RunValueDecimal(s);
    DigitsValueOfNatToString(n);
  }

  /** The numeral with its sign, after trimming, reads as `sign` times its value. */
  lemma ParseSignedNumeral(s: string, n: nat, sign: int)
    requires s == NatToString(n)
    requires sign == -1 || sign == 1
    ensures ParseInt(if sign == -1 then "-" + s else s) == Some(sign * n)
  {
    NumeralRun(n);
    assert s[..|s|] == s;
    var t := if sign == -1 then "-" + s else s;
    assert LeadingBlanks(t) == 0;
    assert TrimStart(t) == t;
    if sign == -1 {
      assert t[1..] == s;
    }
  }

  /** The field reads back a number it shows (the edit form shows the whole
      minutes as a decimal numeral), also after a minus sign or a blank. */
  lemma DurationInputOfNumeral(n: nat)
    ensures DurationInput(NatToString(n)) == n
    ensures DurationInput("-" + NatToString(n)) == -(n as int)
    ensures DurationInput(" " + NatToString(n)) == n
  {
    var s := NatToString(n);
    ParseSignedNumeral(s, n, 1);
    ParseSignedNumeral(s, n, -1);
    var blank := " " + s;
    assert blank[1..] == s;
    assert LeadingBlanks(blank) == 1 + LeadingBlanks(s);
    assert TrimStart(blank) == TrimStart(s);
  }

  /** Text containing no decimal digit is not a number, so the field becomes 0. */
  lemma DurationInputWithoutDigits(value: string)
    requires forall c :: c in value ==> !IsDigit(c)
    ensures ParseInt(value) == None
    ensures DurationInput(value) == 0
  {
    var t := TrimStart(value);
    var u := if t != [] && (t[0] == '-' || t[0] == '+') then t[1..] else t;
    assert forall i :: 0 <= i < |u| ==> u[i] in value by {
      forall i | 0 <= i < |u| ensures u[i] in value {
        if t != [] && (t[0] == '-' || t[0] == '+') {
          assert u[i] == t[i + 1] == value[LeadingBlanks(value) + i + 1];
        } else {
          assert u[i] == value[LeadingBlanks(value) + i];
        }
      }
    }
    if u != [] {
      assert u[0] in value;
      assert RadixDigit(u[0], 10).None?;
    }
  }

  /** The decimal digits at the start of "12min" read as twelve. */
  lemma TwelveDigits()
    ensures DigitRun("12min", 10) == 2
    ensures "12min"[..2] == "12"
    ensures RunValue("12", 10) == 12
  {
    assert "12min"[1..] == "2min" && "2min"[1..] == "min";
    assert "12"[..1] == "1" && "1"[..0] == "";
    assert RunValue("1", 10) == 1;
  }

  /** Text that starts with a digit other than zero, and no blank or sign,
      is read as the decimal run it starts with. */
  lemma ParseUnsignedDecimal(s: string)
    requires s != [] && '1' <= s[0] <= '9'
    ensures DigitRun(s, 10) > 0
    ensures ParseInt(s) == Some(RunValue(s[..DigitRun(s, 10)], 10))
  {
    assert LeadingBlanks(s) == 0;
    var t := TrimStart(s);
    assert t == s;
    assert !(t != [] && (t[0] == '-' || t[0] == '+'));
    assert t[0] != '0';
    var k := DigitRun(s, 10);
    assert ParseInt(s) == Some(1 * RunValue(s[..k], 10));
  }

  /** "12min" reads as twelve. */
  lemma ParseTwelve()
    ensures ParseInt("12min") == Some(12)
  {
    ParseUnsignedDecimal("12min");
    TwelveDigits();
  }

  lemma TwelveAfterBlanks()
    ensures TrimStart("  12min") == "12min"
  {
    var s := "  12min";
    assert s[1..] == " 12min" && s[1..][1..] == "12min";
    assert LeadingBlanks(s) == 2;
  }

  /** Concrete readings of the field: digits after blanks are read up to the
      first non-digit. */
  lemma DurationInputDigitsThenText()
    ensures DurationInput("  12min") == 12
  {
    TwelveAfterBlanks();
    ParseTwelve();
    assert ParseInt("  12min") == ParseInt("12min");
  }

  /** Text that starts with `0x` or `0X` is read as the hexadecimal run after
      the prefix, and is not a number when no hexadecimal digit follows. */
  lemma ParseHex(s: string)
    requires |s| >= 2 && s[0] == '0' && (s[1] == 'x' || s[1] == 'X')
    ensures DigitRun(s[2..], 16) == 0 ==> ParseInt(s) == None
    ensures DigitRun(s[2..], 16) > 0 ==>
      ParseInt(s) == Some(RunValue(s[2..][..DigitRun(s[2..], 16)], 16))
  {
    assert LeadingBlanks(s) == 0;
    assert TrimStart(s) == s;
    assert !(s[0] == '-' || s[0] == '+');
  }

  /** A `0x` prefix reads hexadecimal. */
  lemma DurationInputHex()
    ensures DurationInput("0x1A") == 26
  {
    ParseHex("0x1A");
    assert "0x1A"[2..] == "1A";
    assert "1A"[1..] == "A" && "A"[1..] == "";
    assert DigitRun("1A", 16) == 2;
    assert "1A"[..2] == "1A";
    assert "1A"[..1] == "1" && "1"[..0] == "";
    assert RunValue("1", 16) == 1;
    assert RunValue("1A", 16) == 26;
  }

  // ---------------------------------------------------------------------------
  // The edit form

  /** A video as the page receives it (duration in seconds, tags as a list). */
  datatype VideoRecord = VideoRecord(
    id: int, title: string, description: string, videoUrl: string,
    thumbnailUrl: string, category: string, author: string,
    duration: int, tags: seq<string>)

  /** The form state (duration in minutes, tags as one text). */
  datatype VideoForm = VideoForm(
    id: int, title: string, description: string, videoUrl: string,
    thumbnailUrl: string, category: string, author: string,
    duration: int, tags: string)

  /** `handleShowModal(video)`: the form filled from an existing video. */
  function EditForm(video: VideoRecord): VideoForm
  {
    VideoForm(video.id, video.title, video.description, video.videoUrl,
              video.thumbnailUrl, video.category, video.author,
              ToMinutes(video.duration), TagInput.FormatTags(video.tags))
  }

  /** `handleSubmit`: the form data with the duration back in seconds and the
      tags parsed. */
  function SubmitData(form: VideoForm): VideoRecord
  {
    VideoRecord(form.id, form.title, form.description, form.videoUrl,
                form.thumbnailUrl, form.category, form.author,
                ToSeconds(form.duration), TagInput.ParseTags(form.tags))
  }

  /** Submitted data differs from the form only in the duration and the tags. */
  lemma SubmitKeepsFields(form: VideoForm)
    ensures var v := SubmitData(form);
      v.id == form.id && v.title == form.title && v.description == form.description
      && v.videoUrl == form.videoUrl && v.thumbnailUrl == form.thumbnailUrl
      && v.category == form.category && v.author == form.author
  {
  }

  /** Opening a video for editing and saving it unchanged gives back the same
      video exactly when its tags are clean and its duration is whole minutes. */
  lemma EditRoundTrip(video: VideoRecord)
    ensures SubmitData(EditForm(video)) == video <==>
      TagInput.CleanTags(video.tags) && video.duration % 60 == 0
  {
    TagInput.ParseFormatIff(video.tags);
    SecondsRoundTrip(video.duration);
  }
}

/** The `m:ss` duration label shared by the voice recorder and the voice-note
    player (`formatTime` in src/components/VoiceRecorder.jsx and
    src/components/voice-note-player.jsx). */
module Clock {
  import opened Options
  import opened Strings

  /** Seconds below a minute as two digits, tens first. */
  function TwoDigits(secs: nat): (r: string)
    requires secs < 60
    ensures |r| == 2 && AllDigits(r)
    ensures DigitsValue(r) == secs
  {
    var r := [DigitChar(secs / 10), DigitChar(secs % 10)];
    assert DigitsValue(r[..1]) == DigitsValue(r[..1][..0]) * 10 + DigitValue(r[0]);
    r
  }

  lemma DecimalOfDigit(d: nat)
    requires d < 10
    ensures Decimal(d) == [DigitChar(d)]
  {
  }

  lemma DecimalOfTwoDigits(n: nat)
    requires 10 <= n < 100
    ensures Decimal(n) == [DigitChar(n / 10), DigitChar(n % 10)]
  {
    DecimalOfDigit(n / 10);
  }

  lemma PadOneDigit(c: char)
    ensures PadStart([c], 2, '0') == ['0', c]
  {
    assert seq(1, _ => '0') == ['0'];
  }

  /** The two digits are the `padStart(2, "0")` of the seconds' numeral. */
  lemma TwoDigitsIsPadded(secs: nat)
    requires secs < 60
    ensures TwoDigits(secs) == PadStart(Decimal(secs), 2, '0')
  {
    if secs < 10 {
      DecimalOfDigit(secs);
      PadOneDigit(DigitChar(secs));
      assert DigitChar(0) == '0';
    } else {
      DecimalOfTwoDigits(secs);
    }
  }

  /** `formatTime(seconds)`: whole minutes, a colon, then the remaining seconds as
      two digits. The label reads back as the number it was made from. */
  function Format(seconds: nat): (r: string)
    ensures |r| >= 4
    ensures var k := |r| - 3;
      && r[k] == ':'
      && AllDigits(r[..k]) && AllDigits(r[k + 1..])
      && DigitsValue(r[k + 1..]) < 60
      && DigitsValue(r[..k]) * 60 + DigitsValue(r[k + 1..]) == seconds
    ensures |r| > 4 ==> r[0] != '0'
  {
    var m := Decimal(seconds / 60);
    var s := TwoDigits(seconds % 60);
    var r := m + [':'] + s;
    assert r[..|m|] == m && r[|m| + 1..] == s;
    assert DigitsValue(m) * 60 + DigitsValue(s) == seconds;
    r
  }

  /** Zero seconds read "0:00". */
  lemma FormatZero()
    ensures Format(0) == "0:00"
  {
    assert Decimal(0) == [DigitChar(0)];
    assert DigitChar(0) == '0';
  }

  /** Reads an `m:ss` label back into seconds; `None` for anything that is not one. */
  function Parse(t: string): (r: Option<nat>)
    ensures r.Some? ==> |t| >= 4 && t[|t| - 3] == ':'
  {
    if |t| < 4 then None
    else
      var k := |t| - 3;
      if t[k] == ':' && AllDigits(t[..k]) && AllDigits(t[k + 1..]) && DigitsValue(t[k + 1..]) < 60
      then Some(DigitsValue(t[..k]) * 60 + DigitsValue(t[k + 1..]))
      else None
  }

  /** Every label `Format` makes is read back as the same number of seconds. */
  lemma ParseFormat(seconds: nat)
    ensures Parse(Format(seconds)) == Some(seconds)
  {
  }

  /** Different durations never share a label. */
  lemma FormatInjective(a: nat, b: nat)
    ensures Format(a) == Format(b) ==> a == b
  {
    ParseFormat(a);
    ParseFormat(b);
  }
}

/** `parseTimestamp` from the popup: the `YYYY-MM-DD HH:MM` text of an
    instant, and a reader that takes the text back to its fields. */
module Timestamp {
  import opened Text
  import Calendar

  /** What every field of an invalid date prints as. */
  const InvalidStamp: string := "NaN-NaN-NaN NaN:NaN"

  /** The fixed-width part after the year: `-MM-DD HH:MM`. */
  function StampTail(month: nat, day: nat, hour: nat, minute: nat): string
  {
    "-" + PaddedNat(month, 2) + "-" + PaddedNat(day, 2) + " " + PaddedNat(hour, 2) + ":" + PaddedNat(minute, 2)
  }

  function StampText(dt: Calendar.DateTime): string
    requires Calendar.ValidDateTime(dt)
  {
    IntToString(dt.date.year) + StampTail(dt.date.month, dt.date.day, dt.hour, dt.minute)
  }

  /** `parseTimestamp`: `YYYY-MM-DD HH:MM` (the year unpadded), or the NaN
      text when the stamp is missing or out of the date range. */
  function ParseTimestamp(timestamp: Option<int>): string
  {
    if timestamp.None? || !Calendar.ValidTime(timestamp.value) then InvalidStamp
    else StampText(Calendar.DateTimeOf(timestamp.value))
  }

  datatype Stamp = Stamp(year: int, month: nat, day: nat, hour: nat, minute: nat)

  function ReadInt(s: string): Option<int>
  {
    if 2 <= |s| && s[0] == '-' && AllDigits(s[1..]) then Some(-(DigitsValue(s[1..]) as int))
    else if 1 <= |s| && AllDigits(s) then Some(DigitsValue(s))
    else None
  }

  function ReadTwo(s: string): Option<nat>
  {
    if |s| == 2 && AllDigits(s) then Some(DigitsValue(s)) else None
  }

  /** Reads a `parseTimestamp` text back into its fields; the fixed-width
      part is read from the end because the year has no fixed width. */
  function ReadStamp(s: string): Option<Stamp>
  {
    if |s| < 13 then None
    else
      var year, t := ReadInt(s[..|s| - 12]), s[|s| - 12..];
      var month, day, hour, minute := ReadTwo(t[1..3]), ReadTwo(t[4..6]), ReadTwo(t[7..9]), ReadTwo(t[10..]);
      if && t[0] == '-' && t[3] == '-' && t[6] == ' ' && t[9] == ':'
         && year.Some? && month.Some? && day.Some? && hour.Some? && minute.Some?
      then Some(Stamp(year.value, month.value, day.value, hour.value, minute.value))
      else None
  }

  function StampOf(dt: Calendar.DateTime): Stamp
    requires Calendar.ValidDateTime(dt)
  {
    Stamp(dt.date.year, dt.date.month, dt.date.day, dt.hour, dt.minute)
  }

  lemma ReadIntOfIntToString(i: int)
    ensures ReadInt(IntToString(i)) == Some(i)
  {
    var s := IntToString(i);
    if i < 0 {
      NatToStringValue(-i);
      assert s[1..] == NatToString(-i);
    } else {
      NatToStringValue(i);
      assert IsDigit(s[0]);
    }
  }

  /** The text of a valid stamp reads back as the calendar fields of its
      instant down to the minute; the text of a missing or invalid stamp
      does not read at all. */
  lemma ParseTimestampReadsBack(timestamp: Option<int>)
    ensures timestamp.Some? && Calendar.ValidTime(timestamp.value) ==>
      ReadStamp(ParseTimestamp(timestamp)) == Some(StampOf(Calendar.DateTimeOf(timestamp.value)))
    ensures ReadStamp(ParseTimestamp(timestamp)).None? <==> timestamp.None? || !Calendar.ValidTime(timestamp.value)
  {
    if timestamp.Some? && Calendar.ValidTime(timestamp.value) {
      var dt := Calendar.DateTimeOf(timestamp.value);
      StampReadsBack(dt);
    } else {
      assert ReadStamp(InvalidStamp).None? by {
        assert InvalidStamp[7 + 3] == 'N';
      }
    }
  }

  lemma StampTailLayout(month: nat, day: nat, hour: nat, minute: nat)
    requires month < 100 && day < 100 && hour < 100 && minute < 100
    ensures var t := StampTail(month, day, hour, minute);
      && |t| == 12 && t[0] == '-' && t[3] == '-' && t[6] == ' ' && t[9] == ':'
      && ReadTwo(t[1..3]) == Some(month) && ReadTwo(t[4..6]) == Some(day)
      && ReadTwo(t[7..9]) == Some(hour) && ReadTwo(t[10..]) == Some(minute)
  {
    assert Pow10(2) == 100;
    var mo, d := PaddedNat(month, 2), PaddedNat(day, 2);
    var h, mi := PaddedNat(hour, 2), PaddedNat(minute, 2);
    PaddedNatDigits(month, 2);
    PaddedNatDigits(day, 2);
    PaddedNatDigits(hour, 2);
    PaddedNatDigits(minute, 2);
    var t := StampTail(month, day, hour, minute);
    assert t == "-" + mo + "-" + d + " " + h + ":" + mi;
    assert t[1..3] == mo;
    assert t[4..6] == d;
    assert t[7..9] == h;
    assert t[10..] == mi;
  }

  lemma StampReadsBack(dt: Calendar.DateTime)
    requires Calendar.ValidDateTime(dt)
    ensures ReadStamp(StampText(dt)) == Some(StampOf(dt))
  {
    var y := IntToString(dt.date.year);
    var t := StampTail(dt.date.month, dt.date.day, dt.hour, dt.minute);
    StampTailLayout(dt.date.month, dt.date.day, dt.hour, dt.minute);
    ReadIntOfIntToString(dt.date.year);
    var s := StampText(dt);
    assert s[..|s| - 12] == y && s[|s| - 12..] == t;
  }
}

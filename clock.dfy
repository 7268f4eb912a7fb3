/** The text `getCurrentTime` produces. Reading the clock and formatting the
    local date and time are left to the caller: the date-time part arrives as
    a string, and only the millisecond field is computed here. */
module Clock {
  import opened Text

  /** The field written after the dot: the milliseconds since the epoch,
      reduced modulo 1000, right-aligned in a field of width 3 filled
      with '0'. */
  function MillisField(epochMillis: nat): (r: string)
    ensures |r| == 3 && AllDigits(r)
  {
    NatToDecimalLength(epochMillis % 1000, 3);
    PadLeft(NatToDecimal(epochMillis % 1000), 3, '0')
  }

  /** The three digits spell the milliseconds within the second. */
  lemma MillisFieldValue(epochMillis: nat)
    ensures DigitsValue(MillisField(epochMillis)) == epochMillis % 1000
  {
    var digits := NatToDecimal(epochMillis % 1000);
    var r := MillisField(epochMillis);
    var zeros := r[..|r| - |digits|];
    assert r == zeros + digits;
    LeadingZerosValue(zeros, digits);
  }

  /** Zero padding in action: 7 ms past the second is written "007". */
  lemma MillisFieldPadsWithZeros()
    ensures MillisField(1_700_000_000_007) == "007"
  {
    assert 1_700_000_000_007 % 1000 == 7;
    assert NatToDecimal(7) == "7";
    assert PadLeft("7", 3, '0') == "007";
  }

  /** `getCurrentTime`: the formatted local date and time, a dot, and the
      millisecond field. */
  function Timestamp(dateTime: string, epochMillis: nat): (r: string)
    ensures |r| == |dateTime| + 4
    ensures r[..|dateTime|] == dateTime && r[|dateTime|] == '.'
    ensures AllDigits(r[|dateTime| + 1..])
  {
    var millis := MillisField(epochMillis);
    PrefixOfAppend(dateTime, "." + millis);
    FieldAfterSeparator(dateTime, '.', millis);
    dateTime + ("." + millis)
  }

  /** The last three characters of a timestamp are decimal digits spelling
      the milliseconds within the second. */
  lemma TimestampMillis(dateTime: string, epochMillis: nat)
    ensures var r := Timestamp(dateTime, epochMillis);
      AllDigits(r[|dateTime| + 1..]) && DigitsValue(r[|dateTime| + 1..]) == epochMillis % 1000
  {
    var millis := MillisField(epochMillis);
    FieldAfterSeparator(dateTime, '.', millis);
    MillisFieldValue(epochMillis);
  }

  /** A timestamp adds only a dot and digits to the date-time text, so it
      holds a '{' only where the date-time text does. */
  lemma TimestampHasNoBrace(dateTime: string, epochMillis: nat)
    requires '{' !in dateTime
    ensures '{' !in Timestamp(dateTime, epochMillis)
  {
    BraceFreeStamp(Timestamp(dateTime, epochMillis), dateTime);
  }

  lemma BraceFreeStamp(r: string, front: string)
    requires |front| < |r| && r[..|front|] == front && r[|front|] == '.'
    requires AllDigits(r[|front| + 1..]) && '{' !in front
    ensures '{' !in r
  {
    var n := |front|;
    forall i | 0 <= i < |r|
      ensures r[i] != '{'
    {
      if i < n {
        assert r[..n][i] == r[i];
      } else if i > n {
        assert r[n + 1..][i - n - 1] == r[i];
      }
    }
  }

  lemma FieldAfterSeparator(front: string, separator: char, field: string)
    ensures (front + ([separator] + field))[|front| + 1..] == field
  {
  }
}

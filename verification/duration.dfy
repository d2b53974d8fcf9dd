/**
 `durationToFullHours`: the whole-hour count of a Twitch duration string such as
 "3h8m33s". The pattern `(?:(\d+)h)?(?:(\d+)m)?(?:(\d+)s)?` is unanchored but can
 match the empty string, so it always matches at position 0; its hour group is
 therefore set exactly when the string BEGINS with a digit run followed by 'h'.
 Minutes and seconds never contribute, and nothing makes the function fail.
 */
module Duration {
  import opened Digits

  function DurationToFullHours(duration: string): (hours: nat)
  {
    var k := LeadingDigits(duration);
    if 0 < k < |duration| && duration[k] == 'h' then DecimalValue(duration[..k]) else 0
  }

  /** The first `k` characters are digits and character `k` is the hour unit. */
  ghost predicate HourComponentAt(duration: string, k: int) {
    0 < k < |duration| && AllDigits(duration[..k]) && duration[k] == 'h'
  }

  /**
   The hour count is the value of the digits in front of a leading 'h', and 0 when
   the string does not start that way ("59m", "0s", "", "h", "x3h" all give 0).
   */
  lemma FullHoursOfLeadingComponent(duration: string)
    ensures forall k :: HourComponentAt(duration, k) ==>
              DurationToFullHours(duration) == DecimalValue(duration[..k])
    ensures (forall k :: !HourComponentAt(duration, k)) ==> DurationToFullHours(duration) == 0
  {
    forall k | HourComponentAt(duration, k)
      ensures DurationToFullHours(duration) == DecimalValue(duration[..k])
    {
      LeadingDigitsOfRun(duration[..k], duration[k..]);
      assert duration[..k] + duration[k..] == duration;
    }
    var k := LeadingDigits(duration);
    if 0 < k < |duration| && duration[k] == 'h' {
      assert HourComponentAt(duration, k);
    }
  }

  /**
   An assumed rendering of the video API's duration field: the largest non-zero
   unit first, each unit a shortest decimal number ("3h8m33s", "59m12s", "0s").
   */
  function TwitchDuration(h: nat, m: nat, s: nat): string {
    if h > 0 then ToDecimal(h) + "h" + ToDecimal(m) + "m" + ToDecimal(s) + "s"
    else if m > 0 then ToDecimal(m) + "m" + ToDecimal(s) + "s"
    else ToDecimal(s) + "s"
  }

  /** Reading back a rendered duration recovers exactly its hour count. */
  lemma FullHoursOfTwitchDuration(h: nat, m: nat, s: nat)
    ensures DurationToFullHours(TwitchDuration(h, m, s)) == h
  {
    var d := TwitchDuration(h, m, s);
    if h > 0 {
      var rest := "h" + ToDecimal(m) + "m" + ToDecimal(s) + "s";
      assert d == ToDecimal(h) + rest;
      LeadingDigitsOfRun(ToDecimal(h), rest);
      DecimalRoundTrip(h);
    } else if m > 0 {
      var rest := "m" + ToDecimal(s) + "s";
      assert d == ToDecimal(m) + rest;
      LeadingDigitsOfRun(ToDecimal(m), rest);
    } else {
      LeadingDigitsOfRun(ToDecimal(s), "s");
    }
  }
}

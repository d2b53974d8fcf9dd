/**
 Video-id extraction, `link.match(/videos\/(\d+)/)`: the leftmost occurrence of
 "videos/" that is immediately followed by a digit, and the maximal digit run
 after it as the captured id. A link with no such occurrence is invalid.
 */
module VideoLink {
  import opened Wrappers
  import opened Digits

  const Marker: string := "videos/"

  /** The pattern matches with its "videos/" starting at position `p`. */
  predicate MatchesAt(link: string, p: int) {
    0 <= p && p + |Marker| < |link| && link[p..p + |Marker|] == Marker && IsDigit(link[p + |Marker|])
  }

  /** Leftmost match at or after `from`, as the regex engine tries start positions left to right. */
  function FindFrom(link: string, from: nat): (r: Option<nat>)
    requires from <= |link|
    ensures r.Some? ==> from <= r.value && MatchesAt(link, r.value)
    ensures r.Some? ==> forall q :: from <= q < r.value ==> !MatchesAt(link, q)
    ensures r.None? ==> forall q :: from <= q ==> !MatchesAt(link, q)
    decreases |link| - from
  {
    if MatchesAt(link, from) then Some(from)
    else if from == |link| then None
    else FindFrom(link, from + 1)
  }

  /** `s` is the whole digit run that starts at `start`: it is followed by a non-digit or the end. */
  ghost predicate MaximalRunAt(link: string, start: int, s: string) {
    0 <= start && start + |s| <= |link| && link[start..start + |s|] == s
    && (start + |s| < |link| ==> !IsDigit(link[start + |s|]))
  }

  function ExtractVideoId(link: string): (id: Option<string>)
    ensures id.None? <==> forall p :: !MatchesAt(link, p)
    ensures id.Some? ==> |id.value| > 0 && AllDigits(id.value)
    ensures id.Some? ==> exists p :: MatchesAt(link, p) && (forall q :: 0 <= q < p ==> !MatchesAt(link, q))
                                  && MaximalRunAt(link, p + |Marker|, id.value)
  {
    match FindFrom(link, 0)
    case None => None
    case Some(p) =>
      var start := p + |Marker|;
      var k := LeadingDigits(link[start..]);
      assert link[start..][..k] == link[start..start + k];
      Some(link[start..start + k])
  }

  /** The browser form of a video's address. */
  const TwitchVideoUrl: string := "https://www.twitch.tv/videos/"

  /** A Twitch video address yields back its numeric id, whatever non-digit suffix follows. */
  lemma ExtractFromTwitchUrl(id: string, rest: string)
    requires |id| > 0 && AllDigits(id)
    requires |rest| > 0 ==> !IsDigit(rest[0])
    ensures ExtractVideoId(TwitchVideoUrl + id + rest) == Some(id)
  {
    var link := TwitchVideoUrl + id + rest;
    var p := |TwitchVideoUrl| - |Marker|;
    assert link[..|TwitchVideoUrl|] == TwitchVideoUrl;
    forall q | 0 <= q < p ensures !MatchesAt(link, q) {
      assert link[q] == TwitchVideoUrl[q];
      assert link[q + 2] == TwitchVideoUrl[q + 2];
    }
    assert link[p..p + |Marker|] == Marker;
    assert link[p + |Marker|] == id[0];
    assert MatchesAt(link, p);
    assert link[p + |Marker|..] == id + rest;
    LeadingDigitsOfRun(id, rest);
  }
}

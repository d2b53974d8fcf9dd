/**
 The `verificarvod` command as one pure transition: from the stored ledger, the
 submitting user, the submitted link and what the video lookup produced, to the
 reply and the ledger as stored afterwards. Checks run in the handler's order:
 the link, then the duplicate check (before any lookup), then the lookup; only a
 counted video reaches the single save.
 */
module Submission {
  import opened Wrappers
  import opened Digits
  import opened Duration
  import opened Scoring
  import opened VideoLink
  import opened Ledger

  /** The fields of the video record the handler reads. */
  datatype Video = Video(viewCount: int, duration: string)

  /**
   What the lookup of the extracted id produced: a record, an empty answer, or an
   exception (token request or query failed), which the handler does not catch.
   */
  datatype Lookup = Found(video: Video) | NoVideo | LookupFailed

  datatype Outcome =
    | InvalidLink
    | AlreadyCounted
    | VideoNotFound
    /** The lookup threw: no reply is sent and the handler stops before saving. */
    | Aborted
    | Counted(views: int, hours: nat, awarded: int, total: int)

  /** The ledger stored after the submission is the one read before it unless the video was counted. */
  function Submit(data: Data, userId: string, link: string, lookup: Lookup): (res: (Outcome, Data))
    ensures res.1 == data <==> !res.0.Counted?
    ensures res.0.Counted? ==> userId in res.1.users && res.0.total == res.1.users[userId].points
  {
    match ExtractVideoId(link)
    case None => (InvalidLink, data)
    case Some(videoId) =>
      if HasSubmitted(data, userId, videoId) then (AlreadyCounted, data)
      else
        match lookup
        case NoVideo => (VideoNotFound, data)
        case LookupFailed => (Aborted, data)
        case Found(video) =>
          var hours := DurationToFullHours(video.duration);
          var award := Award(hours, video.viewCount);
          var data' := Commit(data, userId, videoId, award);
          (Counted(video.viewCount, hours, award, data'.users[userId].points), data')
  }

  /**
   A link is rejected exactly when "videos/" followed by a digit occurs nowhere in
   it, whatever the ledger, the user or the lookup.
   */
  lemma InvalidLinkIff(data: Data, userId: string, link: string, lookup: Lookup)
    ensures Submit(data, userId, link, lookup).0 == InvalidLink <==> forall p :: !MatchesAt(link, p)
  {
  }

  /**
   A duplicate is recognised from the ledger alone: the outcome is AlreadyCounted
   exactly when the extracted id is already in the user's list, and then the
   lookup result plays no part.
   */
  lemma DuplicateIgnoresLookup(data: Data, userId: string, link: string, lookup: Lookup, lookup': Lookup)
    ensures Submit(data, userId, link, lookup).0 == AlreadyCounted <==>
              ExtractVideoId(link).Some? && HasSubmitted(data, userId, ExtractVideoId(link).value)
    ensures Submit(data, userId, link, lookup).0 == AlreadyCounted ==>
              Submit(data, userId, link, lookup') == Submit(data, userId, link, lookup)
  {
  }

  /**
   Once the link is valid and the id new, the lookup decides: an empty answer is
   reported as "not found", a thrown lookup aborts the handler, and in both cases
   the ledger is left as it was.
   */
  lemma LookupFailures(data: Data, userId: string, link: string, lookup: Lookup)
    ensures Submit(data, userId, link, lookup).0 == VideoNotFound <==>
              ExtractVideoId(link).Some? && !HasSubmitted(data, userId, ExtractVideoId(link).value) && lookup.NoVideo?
    ensures Submit(data, userId, link, lookup).0 == Aborted <==>
              ExtractVideoId(link).Some? && !HasSubmitted(data, userId, ExtractVideoId(link).value) && lookup.LookupFailed?
    ensures Submit(data, userId, link, lookup).0 in {VideoNotFound, Aborted} ==>
              Submit(data, userId, link, lookup).1 == data
  {
  }

  /**
   A video is counted exactly when the link is valid, the id is new for the user
   and the lookup found a record. Then the outcome reports its views, whole hours
   and award; the user's list gains exactly that id, the points rise by exactly
   the award, and every other user is untouched.
   */
  lemma SubmitCounted(data: Data, userId: string, link: string, lookup: Lookup)
    ensures var (outcome, data') := Submit(data, userId, link, lookup);
      outcome.Counted? <==>
        ExtractVideoId(link).Some? && !HasSubmitted(data, userId, ExtractVideoId(link).value) && lookup.Found?
    ensures var (outcome, data') := Submit(data, userId, link, lookup);
      outcome.Counted? ==>
        && var videoId := ExtractVideoId(link).value;
        && outcome.views == lookup.video.viewCount
        && outcome.hours == DurationToFullHours(lookup.video.duration)
        && outcome.awarded == PointsByHours(outcome.hours) + PointsByViews(outcome.views)
        && 0 <= outcome.awarded <= 56
        && (outcome.views >= 0 ==> 2 <= outcome.awarded)
        && data'.users.Keys == data.users.Keys + {userId}
        && data'.users[userId].vods == Entry(data, userId).vods + [videoId]
        && data'.users[userId].points == Entry(data, userId).points + outcome.awarded
        && (forall u :: u in data.users && u != userId ==> data'.users[u] == data.users[u])
  {
    if lookup.Found? {
      AwardBounds(DurationToFullHours(lookup.video.duration), lookup.video.viewCount);
    }
  }

  /**
   Submitting the same (user, video) again after it was counted is a duplicate,
   whichever link carries the id and whatever the lookup says, and it leaves the
   ledger, hence the user's points, where they were.
   */
  lemma SubmitIdempotent(data: Data, userId: string, link: string, lookup: Lookup, link': string, lookup': Lookup)
    requires ExtractVideoId(link') == ExtractVideoId(link)
    ensures var (outcome, data') := Submit(data, userId, link, lookup);
      outcome.Counted? ==> Submit(data', userId, link', lookup') == (AlreadyCounted, data')
  {
    SubmitCounted(data, userId, link, lookup);
  }

  /** Every user keeps their entry, their list only grows at its end and their points never drop. */
  lemma SubmitGrows(data: Data, userId: string, link: string, lookup: Lookup)
    ensures Grows(data, Submit(data, userId, link, lookup).1)
  {
    if Submit(data, userId, link, lookup).0.Counted? {
      SubmitCounted(data, userId, link, lookup);
    }
  }

  /** With a non-negative view count, a submission keeps the ledger consistent. */
  lemma SubmitKeepsConsistent(data: Data, userId: string, link: string, lookup: Lookup)
    requires Consistent(data)
    requires lookup.Found? ==> lookup.video.viewCount >= 0
    ensures Consistent(Submit(data, userId, link, lookup).1)
  {
    if Submit(data, userId, link, lookup).0.Counted? {
      var videoId := ExtractVideoId(link).value;
      var v := lookup.video;
      var award := Award(DurationToFullHours(v.duration), v.viewCount);
      AwardBounds(DurationToFullHours(v.duration), v.viewCount);
      CommitKeepsConsistent(data, userId, videoId, award);
    }
  }

  /** Whatever the view count, a submission never puts a video twice into a user's list. */
  lemma SubmitKeepsNoRecount(data: Data, userId: string, link: string, lookup: Lookup)
    requires NoRecount(data)
    ensures NoRecount(Submit(data, userId, link, lookup).1)
  {
    if Submit(data, userId, link, lookup).0.Counted? {
      var videoId := ExtractVideoId(link).value;
      var v := lookup.video;
      CommitKeepsNoRecount(data, userId, videoId, Award(DurationToFullHours(v.duration), v.viewCount));
    }
  }

  /** One invocation of the command. */
  datatype Request = Request(userId: string, link: string, lookup: Lookup)

  /** The stored ledger after handling the requests one after another. */
  function Run(data: Data, requests: seq<Request>): Data
    decreases |requests|
  {
    if |requests| == 0 then data
    else
      var r := requests[0];
      Run(Submit(data, r.userId, r.link, r.lookup).1, requests[1..])
  }

  ghost predicate ViewsNonNegative(requests: seq<Request>) {
    forall i :: 0 <= i < |requests| && requests[i].lookup.Found? ==> requests[i].lookup.video.viewCount >= 0
  }

  /** Over any sequence of submissions no entry is lost, no list shrinks and no total drops. */
  lemma {:induction false} RunGrows(data: Data, requests: seq<Request>)
    ensures Grows(data, Run(data, requests))
    decreases |requests|
  {
    if |requests| > 0 {
      var r := requests[0];
      var next := Submit(data, r.userId, r.link, r.lookup).1;
      SubmitGrows(data, r.userId, r.link, r.lookup);
      RunGrows(next, requests[1..]);
      GrowsTransitive(data, next, Run(next, requests[1..]));
    }
  }

  /**
   Over any sequence of submissions, whatever the view counts, no (user, video)
   pair is ever counted twice.
   */
  lemma {:induction false} RunKeepsNoRecount(data: Data, requests: seq<Request>)
    requires NoRecount(data)
    ensures NoRecount(Run(data, requests))
    decreases |requests|
  {
    if |requests| > 0 {
      var r := requests[0];
      SubmitKeepsNoRecount(data, r.userId, r.link, r.lookup);
      RunKeepsNoRecount(Submit(data, r.userId, r.link, r.lookup).1, requests[1..]);
    }
  }

  /**
   Over any sequence of submissions with non-negative view counts, a consistent
   ledger stays consistent: besides having no repeated video, each user's total
   stays between 2 and 56 points per counted video.
   */
  lemma {:induction false} RunKeepsConsistent(data: Data, requests: seq<Request>)
    requires Consistent(data)
    requires ViewsNonNegative(requests)
    ensures Consistent(Run(data, requests))
    decreases |requests|
  {
    if |requests| > 0 {
      var r := requests[0];
      SubmitKeepsConsistent(data, r.userId, r.link, r.lookup);
      assert ViewsNonNegative(requests[1..]) by {
        forall i | 0 <= i < |requests[1..]| && requests[1..][i].lookup.Found?
          ensures requests[1..][i].lookup.video.viewCount >= 0
        {
          assert requests[1..][i] == requests[i + 1];
        }
      }
      RunKeepsConsistent(Submit(data, r.userId, r.link, r.lookup).1, requests[1..]);
    }
  }

  lemma EmptyIsConsistent()
    ensures Consistent(Empty)
  {
  }

  /** Worked scores: 5h20m with 1200 views, 59m with 50 views, 25h with 5000 views. */
  lemma ScoreExamples()
    ensures DurationToFullHours("5h20m0s") == 5 && Award(5, 1200) == 17
    ensures DurationToFullHours("59m0s") == 0 && Award(0, 50) == 2
    ensures DurationToFullHours("25h0m0s") == 25 && Award(25, 5000) == 56
  {
    FullHoursOfTwitchDuration(5, 20, 0);
    assert TwitchDuration(5, 20, 0) == "5h20m0s";
    FullHoursOfTwitchDuration(0, 59, 0);
    assert TwitchDuration(0, 59, 0) == "59m0s";
    FullHoursOfTwitchDuration(25, 0, 0);
    assert TwitchDuration(25, 0, 0) == "25h0m0s";
    PointsByHoursClosedForm(5);
    PointsByHoursClosedForm(0);
    PointsByHoursClosedForm(25);
    PointsByViewsIsHighestRule(1200);
    PointsByViewsIsHighestRule(50);
    PointsByViewsRange(5000);
  }

  /** A first submission of a 5h20m video with 1200 views is counted for 17 points. */
  lemma CountedExample(data: Data, userId: string, id: string)
    requires |id| > 0 && AllDigits(id)
    requires !HasSubmitted(data, userId, id)
    ensures Submit(data, userId, TwitchVideoUrl + id, Found(Video(1200, "5h20m0s"))).0
         == Counted(1200, 5, 17, Entry(data, userId).points + 17)
  {
    var link := TwitchVideoUrl + id;
    var lookup := Found(Video(1200, "5h20m0s"));
    ExtractFromTwitchUrl(id, "");
    assert TwitchVideoUrl + id + "" == link;
    assert Submit(data, userId, link, lookup).0.Counted?;
    SubmitCounted(data, userId, link, lookup);
    ScoreExamples();
  }

  /** An address whose "videos/" is not followed by a digit is rejected without touching the ledger. */
  lemma InvalidLinkExample(data: Data, userId: string, lookup: Lookup)
    ensures Submit(data, userId, "twitch.tv/videos/abc", lookup) == (InvalidLink, data)
  {
    var link := "twitch.tv/videos/abc";
    forall p ensures !MatchesAt(link, p) {
      if 0 <= p && p + |Marker| < |link| && p != 10 {
        var w := link[p..p + |Marker|];
        assert w[0] == link[p] && w[1] == link[p + 1];
      }
    }
    assert ExtractVideoId(link).None?;
  }
}

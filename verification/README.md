# Twitch VOD point ledger — Dafny model

The bot behind `index.js` has one command, `verificarvod`. A user submits a
Twitch video link. The bot extracts the numeric video id, rejects ids the user
has already counted, and looks the video up. It then awards points for the
video's whole hours and its view count, adds them to the user's total in a
per-user ledger, and saves the ledger. This project models that core as pure
functions and proves its properties.

- `Digits` (`digits.dfy`): ASCII digit runs (what `\d+` consumes) and `parseInt` of a digit string.
- `Duration` (`duration.dfy`): `durationToFullHours`. The regex always matches at position 0, so only a leading `<digits>h` counts.
- `Scoring` (`scoring.dfy`): the two fixed tables. `pointsByHours` is a last-match scan of the ascending table. `pointsByViews` is a first-match scan of the descending table with a 0 fallback. `Award` is their sum. Both scans are proved equal to "the rule with the largest satisfied minimum wins".
- `VideoLink` (`video_link.dfy`): `link.match(/videos\/(\d+)/)`. It finds the leftmost `videos/` followed by a digit and captures the maximal digit run.
- `Ledger` (`ledger.dfy`): the stored `{ users: { id: { points, vods } } }` structure and the commit step. `NoRecount` (no user has a video id twice) holds for every ledger built from an empty one. `Consistent` adds a points bound of 2 to 56 per counted video, which holds when every view count is non-negative.
- `Submission` (`submission.dfy`): the handler as one transition `Submit(data, userId, link, lookup) -> (outcome, data')`. `data'` is the ledger as stored after the command. `Run` folds a sequence of commands.

The Twitch lookup is an input value (`Lookup`), not a call. It has three cases: a video record, an empty answer (`null`, line 51), or a thrown error.

Points of the code the model keeps as they are:
- A failing token request or video query is not caught (index.js:105). No reply is sent and `saveData` is never reached. The model calls this outcome `Aborted` and leaves the stored ledger unchanged.
- `vods` is an array that the handler appends to (index.js:116). The model uses a `seq`, and `Submission.RunKeepsNoRecount` proves it never holds the same id twice.
- The user's entry `{points: 0, vods: []}` is created in memory (index.js:99) before the duplicate test, so an unknown user has counted nothing. `Ledger.Entry` models that step. On a failure path the created entry is never saved.

## Model

| member | source | states |
|---|---|---|
| Digits.DecimalValue | index.js:57 | `parseInt` of a digit string (base ten, leading zeros allowed). Its contract is `Digits.DecimalRoundTrip`: the shortest decimal rendering of any n reads back as n. |
| Duration.DurationToFullHours | index.js:55-59 | The hour group of the duration pattern read as a number. Its contract is `Duration.FullHoursOfLeadingComponent` (leading `<digits>h` gives their value, else 0). |
| Scoring.PointsByHours | index.js:61-65 | The hours scan. Its contract is `Scoring.PointsByHoursClosedForm` (0 / h / 20) and `Scoring.PointsByHoursMonotone`. |
| Scoring.PointsByViews | index.js:67-70 | The views scan with its 0 fallback. Its contract is `Scoring.PointsByViewsIsHighestRule`, `Scoring.PointsByViewsRange` and `Scoring.PointsByViewsMonotone`. |
| Scoring.Award | index.js:111-113 | The hours score plus the views score. Its contract is `Scoring.AwardBounds` (0..56, at least 2 for non-negative views). |
| Ledger.Entry | index.js:99 | The user's entry, created as `{points: 0, vods: []}` when absent. Its use is stated by `Ledger.Commit` and `Submission.SubmitCounted` (the new list is the entry's list plus the id). |
| Ledger.HasSubmitted | index.js:101 | The duplicate test `vods.includes(videoId)`. Its contract is `Submission.DuplicateIgnoresLookup` (duplicate reply iff it holds). |
| Submission.Run | index.js:89-120 | Handling commands one after another. Its contract is `Submission.RunGrows`, `Submission.RunKeepsNoRecount` and `Submission.RunKeepsConsistent`. |
| Digits.LeadingDigits | index.js:91 | The greedy `\d+` run at the start of a string: every character before the returned length is a digit, and the next character (if any) is not. |
| Duration.FullHoursOfLeadingComponent | index.js:55-59 | If the string starts with a non-empty digit run followed by `h`, the hours are that run's decimal value. Otherwise the hours are 0, so minutes or seconds alone ("59m", "0s") give 0. The function never fails. |
| Duration.FullHoursOfTwitchDuration | index.js:55-59 | Round trip: parsing a Twitch-style duration `XhYmZs` / `YmZs` / `Zs` gives back exactly its hour count. |
| Scoring.HoursPointsShape | index.js:16-24 | The hours table has 20 rules, and rule i has minimum i+1 and is worth i+1 points. |
| Scoring.ViewsPointsShape | index.js:26-35 | The views table has strictly decreasing minimums, and a rule with a higher minimum is never worth fewer points. |
| Scoring.LastSatisfiedIsHighest | index.js:61-65 | On an ascending table, the "every satisfied rule overwrites" loop returns the points of the satisfied rule with the largest minimum. It returns the start value 0 when no rule is satisfied. |
| Scoring.FirstSatisfiedIsHighest | index.js:67-70 | On a descending table, the "return the first satisfied rule" loop returns the points of the satisfied rule with the largest minimum. It returns the fallback when no rule is satisfied. |
| Scoring.PointsByHoursClosedForm | index.js:61-65 | Hours score: 0 below one hour, h for 1 <= h <= 20, and 20 from 20 hours on. |
| Scoring.PointsByHoursMonotone | index.js:61-65 | The hours score never decreases as hours grow. |
| Scoring.PointsByViewsIsHighestRule | index.js:67-70 | For views >= 0 the score is the points of the rule with the largest minimum not above the count. The 0 fallback is reached exactly when the count is negative. |
| Scoring.PointsByViewsRange | index.js:26-35 | A non-negative count scores one of 2, 4, 6, 8, 10, 12, 24 or 36. Every count scores between 0 and 36, and 3000 or more views score 36. |
| Scoring.PointsByViewsMonotone | index.js:67-70 | The views score never decreases as views grow. |
| Scoring.AwardBounds | index.js:111-113 | One video earns between 0 and 56 points, and at least 2 when its view count is non-negative. |
| VideoLink.FindFrom | index.js:91 | Returns the leftmost position at or after the start where `videos/` is followed by a digit. Returns none only when no such position exists. |
| VideoLink.ExtractVideoId | index.js:91-95 | The link is valid iff some `videos/` is followed by a digit. The id is non-empty and all digits, and it is the whole digit run after the leftmost such occurrence. |
| VideoLink.ExtractFromTwitchUrl | index.js:91-95 | Round trip: `https://www.twitch.tv/videos/<id><rest>` yields exactly `<id>` when `<rest>` does not start with a digit. |
| Ledger.Commit | index.js:116-118 | The user ends up in the ledger, and their new list is exactly the old list with the new id appended. The list grows by one, the points rise by exactly the award, and every other user is unchanged. |
| Ledger.CommitKeepsNoRecount | index.js:101-116 | Committing an id the user has not counted keeps every user's list free of repeats. |
| Ledger.CommitKeepsConsistent | index.js:101-117 | Committing an id the user has not counted, with an award between 2 and 56, keeps each user's ids distinct and their points between 2 and 56 per counted video. |
| Submission.Submit | index.js:89-120 | The stored ledger differs from the one read iff the video was counted, so every failure path leaves it as it was. When counted, the reported total is the user's stored points. |
| Submission.LookupFailures | index.js:105-106 | For a valid link with a new id, the reply is "not found" iff the lookup answered empty and `Aborted` iff it threw; both leave the ledger unchanged. |
| Submission.InvalidLinkIff | index.js:91-93 | The reply is "invalid link" exactly when `videos/` followed by a digit occurs nowhere in the link, whatever the ledger and the lookup. |
| Submission.DuplicateIgnoresLookup | index.js:99-105 | The reply is "already counted" exactly when the extracted id is already in the user's list. In that case the lookup result has no effect on the outcome or the ledger. |
| Submission.SubmitCounted | index.js:105-120 | A video is counted iff the link is valid, the id is new for the user, and the lookup found a record. When counted, the outcome carries its views, whole hours and award. The user's list gains exactly that id and the points rise by exactly the award (0..56, at least 2 for non-negative views). Every other user is unchanged. |
| Submission.SubmitIdempotent | index.js:99-118 | After a counted submission, resubmitting the same user and id is "already counted", with any link carrying that id and any lookup, and the ledger is unchanged. |
| Submission.SubmitGrows | index.js:99-118 | No submission removes a user, shortens a user's list other than by appending, or lowers a total. |
| Submission.SubmitKeepsConsistent | index.js:99-118 | With a non-negative view count, one submission preserves the ledger invariant. |
| Submission.RunGrows | index.js:89-120 | Over any sequence of submissions, entries, lists and totals only grow. |
| Submission.SubmitKeepsNoRecount | index.js:101-116 | For any view count, one submission never puts an id twice into a user's list. |
| Submission.RunKeepsNoRecount | index.js:89-120 | Over any sequence of submissions, whatever the view counts, no (user, video) pair is counted twice. |
| Submission.RunKeepsConsistent | index.js:89-120 | Over any sequence of submissions with non-negative view counts, each user's total stays between 2 and 56 points per counted video, and no id repeats. |
| Submission.EmptyIsConsistent | index.js:73 | The initial `{ users: {} }` ledger satisfies the invariant. |
| Submission.ScoreExamples | index.js:55-70 | 5h20m with 1200 views gives 5 hours and 17 points. 59m with 50 views gives 0 hours and 2 points. 25h with 5000 views gives 25 hours and 56 points. |
| Submission.CountedExample | index.js:105-120 | A first submission of a 5h20m video with 1200 views is counted for 17 points, and the new total is the old one plus 17. |
| Submission.InvalidLinkExample | index.js:91-93 | `twitch.tv/videos/abc` (a `videos/` not followed by a digit) is rejected and the ledger is unchanged. |

## Left out

- Discord client, event wiring, slash-command registration and the reply embed (index.js:1-13, 82-87, 122-170). These are framework plumbing. The model keeps only the reply's content as `Outcome`.
- `getTwitchToken` / `getTwitchVideo` (index.js:38-53). These are HTTP calls. Their result is the `Lookup` input, including the thrown-error case.
- `readData` / `saveData` (index.js:72-79). These do file I/O and JSON encoding. The ledger is passed in and returned, and `Ledger.Empty` stands for the file created when none exists.
- The lost update between two concurrent handlers that share `data.json`. The model is single-threaded: `Run` handles one submission after another.
- Environment configuration (index.js:6-10).
- Duration.FullHoursOfLeadingComponent: JavaScript `parseInt` returns a double, so a digit run longer than about 15 digits loses precision. The model uses unbounded integers.
- Submission.Submit: user ids are arbitrary strings. A JavaScript object key such as `constructor` or `__proto__` would hit inherited properties, but Discord ids are numeric.
- Ledger.Commit: a ledger file edited by hand might lack `points` or `vods`, or hold non-numeric values. The model's `User` always has both fields, well typed.

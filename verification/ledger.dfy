/**
 The per-user ledger persisted as `{ users: { <userId>: { points, vods } } }`.
 `vods` is the list of video ids already counted for that user, in the order
 they were counted.
 */
module Ledger {

  datatype User = User(points: int, vods: seq<string>)

  datatype Data = Data(users: map<string, User>)

  /** What reading the ledger yields when nothing has been stored yet. */
  const Empty: Data := Data(map[])

  /** The entry a user gets on first submission. */
  const NewUser: User := User(0, [])

  /** The user's entry, materialised as a fresh one when absent. */
  function Entry(data: Data, userId: string): User {
    if userId in data.users then data.users[userId] else NewUser
  }

  /** The video is already counted for the user (an unknown user has counted nothing). */
  predicate HasSubmitted(data: Data, userId: string, videoId: string) {
    videoId in Entry(data, userId).vods
  }

  /**
   Record one counted video: the user's list gains exactly that id at its end and
   the award is added to the user's points; every other user is left as it was.
   */
  function Commit(data: Data, userId: string, videoId: string, award: int): (data': Data)
    ensures data'.users.Keys == data.users.Keys + {userId}
    ensures forall u :: u in data.users && u != userId ==> data'.users[u] == data.users[u]
    ensures forall v :: HasSubmitted(data', userId, v) <==> HasSubmitted(data, userId, v) || v == videoId
    ensures data'.users[userId].vods == Entry(data, userId).vods + [videoId]
    ensures |data'.users[userId].vods| == |Entry(data, userId).vods| + 1
    ensures data'.users[userId].points - Entry(data, userId).points == award
  {
    var user := Entry(data, userId);
    Data(data.users[userId := User(user.points + award, user.vods + [videoId])])
  }

  ghost predicate Distinct(s: seq<string>) {
    forall i, j :: 0 <= i < j < |s| ==> s[i] != s[j]
  }

  /** No user has the same video id in their list twice: no video was counted twice for a user. */
  ghost predicate NoRecount(data: Data) {
    forall u :: u in data.users ==> Distinct(data.users[u].vods)
  }

  /**
   What every ledger built by counting videos from an empty one satisfies when
   every view count is non-negative: no video is counted twice for a user, and
   each counted video contributed between 2 and 56 points.
   */
  ghost predicate Consistent(data: Data) {
    && NoRecount(data)
    && forall u :: u in data.users ==>
         2 * |data.users[u].vods| <= data.users[u].points <= 56 * |data.users[u].vods|
  }

  /** The ledger only grows: no user disappears, lists only get longer at their end, points never drop. */
  ghost predicate Grows(data: Data, data': Data) {
    forall u :: u in data.users ==>
      && u in data'.users
      && data.users[u].vods <= data'.users[u].vods
      && data.users[u].points <= data'.users[u].points
  }

  lemma GrowsTransitive(a: Data, b: Data, c: Data)
    requires Grows(a, b) && Grows(b, c)
    ensures Grows(a, c)
  {
  }

  /** Committing a video the user has not counted keeps every user's list free of repeats. */
  lemma CommitKeepsNoRecount(data: Data, userId: string, videoId: string, award: int)
    requires NoRecount(data)
    requires !HasSubmitted(data, userId, videoId)
    ensures NoRecount(Commit(data, userId, videoId, award))
  {
    var data' := Commit(data, userId, videoId, award);
    var before := Entry(data, userId).vods;
    var vods := data'.users[userId].vods;
    assert vods == before + [videoId];
    forall i, j | 0 <= i < j < |vods| ensures vods[i] != vods[j] {
      if j == |before| {
        assert vods[i] == before[i];
      }
    }
  }

  /** Committing a video the user has not counted, with an award in [2, 56], keeps the ledger consistent. */
  lemma CommitKeepsConsistent(data: Data, userId: string, videoId: string, award: int)
    requires Consistent(data)
    requires !HasSubmitted(data, userId, videoId)
    requires 2 <= award <= 56
    ensures Consistent(Commit(data, userId, videoId, award))
  {
    CommitKeepsNoRecount(data, userId, videoId, award);
  }
}

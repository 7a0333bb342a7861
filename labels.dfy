/** Small display decisions: the relative-time label (`timeAgo`), the
    unread-notification badge (`setNotifBadge`, `fetchUnreadCount`) and the
    video like button (`toggleLike`). */
module Labels {
  import opened Wrappers
  import opened Time
  import opened Notifications

  // ------------------------------------------------------------- timeAgo

  /** The label `timeAgo` produces: "Ns ago", "Nm ago", "Nh ago",
      "Yesterday", or the locale date of the timestamp `at`. */
  datatype Ago =
    | SecondsAgo(n: int) | MinutesAgo(n: int) | HoursAgo(n: int) | YesterdayAgo | OnDate(at: int)
    | InvalidDate  // the locale date of an unparsable timestamp

  /** The label for a timestamp `at` seen at `now` (both in
      milliseconds): `diff` is the floored number of whole seconds between
      them, and the first bucket whose bound exceeds it wins. A timestamp
      in the future gives a negative number of seconds. */
  function TimeAgo(now: int, at: int): (r: Ago)
    ensures r.SecondsAgo? <==> now - at < 60000
    ensures r.MinutesAgo? <==> 60000 <= now - at < 3600000
    ensures r.HoursAgo? <==> 3600000 <= now - at < 86400000
    ensures r.YesterdayAgo? <==> 86400000 <= now - at < 172800000
    ensures r.OnDate? <==> now - at >= 172800000
    ensures r.SecondsAgo? ==> r.n * 1000 <= now - at < r.n * 1000 + 1000
    ensures r.MinutesAgo? ==> 1 <= r.n < 60 && r.n * 60000 <= now - at < r.n * 60000 + 60000
    ensures r.HoursAgo? ==> 1 <= r.n < 24 && r.n * 3600000 <= now - at < r.n * 3600000 + 3600000
    ensures r.OnDate? ==> r.at == at
  {
    var diff := FloorDiv(now - at, 1000);
    if diff < 60 then SecondsAgo(diff)
    else if diff < 3600 then MinutesAgo(FloorDiv(diff, 60))
    else if diff < 86400 then HoursAgo(FloorDiv(diff, 3600))
    else if diff < 172800 then YesterdayAgo
    else OnDate(at)
  }

  /** The label shown beside a notification: every comparison with the
      NaN difference of an unparsable timestamp is false, so it falls
      through to the date, which reads "Invalid Date". */
  function NotificationAge(now: int, created: Option<int>): (r: Ago)
    ensures created.None? <==> r.InvalidDate?
    ensures created.Some? ==> r == TimeAgo(now, created.value)
    ensures created.Some? && now - created.value >= 172800000 ==> r == OnDate(created.value)
  {
    match created
    case None => InvalidDate
    case Some(at) => TimeAgo(now, at)
  }

  // --------------------------------------------------------------- badge

  /** The badge: hidden, showing a count, or showing "99+". */
  datatype Badge = Hidden | ShowCount(n: int) | ShowOverflow

  /** `setNotifBadge(count)`. */
  function BadgeFor(count: int): (b: Badge)
    ensures b.Hidden? <==> count <= 0
    ensures b.ShowOverflow? <==> count > 99
    ensures b.ShowCount? ==> b.n == count && 1 <= b.n <= 99
  {
    if count > 0 then
      if count > 99 then ShowOverflow else ShowCount(count)
    else Hidden
  }

  /** What `GET /notifications` yields to `fetchUnreadCount`. */
  datatype ListResponse =
    | FetchFailed            // the fetch or `res.json()` threw
    | NotAList               // a parsed body that is not an array
    | List(items: seq<Notification>)

  /** The number of unread notifications, `filter(n => !n.read).length`. */
  function CountUnread(ns: seq<Notification>): (r: nat)
    ensures r <= |ns|
    ensures r == 0 <==> forall i :: 0 <= i < |ns| ==> ns[i].read
    decreases |ns|
  {
    if ns == [] then 0
    else CountUnread(ns[..|ns| - 1]) + (if ns[|ns| - 1].read then 0 else 1)
  }

  /** The count is the size of the set of positions holding an unread
      notification. */
  lemma {:induction false} CountUnreadIsUnreadPositions(ns: seq<Notification>)
    ensures CountUnread(ns) == |set i | 0 <= i < |ns| && !ns[i].read|
    decreases |ns|
  {
    if ns != [] {
      var init := ns[..|ns| - 1];
      var k := |ns| - 1;
      CountUnreadIsUnreadPositions(init);
      var before := set i | 0 <= i < |init| && !init[i].read;
      var after := set i | 0 <= i < |ns| && !ns[i].read;
      if ns[k].read {
        assert after == before;
      } else {
        assert after == before + {k};
        assert k !in before;
      }
    }
  }

  /** `fetchUnreadCount`: any failure, and a body that is not an array,
      count as zero. */
  function UnreadCount(resp: ListResponse): (r: nat)
    ensures !resp.List? ==> r == 0
    ensures resp.List? ==> r <= |resp.items|
    ensures resp.List? ==> (r == 0 <==> forall i :: 0 <= i < |resp.items| ==> resp.items[i].read)
    ensures resp.List? ==> r == |set i | 0 <= i < |resp.items| && !resp.items[i].read|
  {
    match resp
    case List(items) =>
      CountUnreadIsUnreadPositions(items);
      CountUnread(items)
    case _ => 0
  }

  /** The poller's badge is hidden exactly when the fetch failed or every
      notification has been read. */
  lemma BadgeHiddenIffNothingUnread(resp: ListResponse)
    ensures BadgeFor(UnreadCount(resp)).Hidden? <==>
      !resp.List? || forall i :: 0 <= i < |resp.items| ==> resp.items[i].read
  {
  }

  // ---------------------------------------------------------- like button

  /** The like button's displayed count and whether it has the `liked`
      class. */
  datatype LikeButton = LikeButton(count: int, liked: bool)

  /** What `PUT /videos/:id/like` yields. */
  datatype LikeResponse =
    | LikeFailed                                  // the fetch or `res.json()` threw
    | LikeRefused                                 // `res.ok` was false
    | LikeAnswer(likes: int, likedBy: Option<seq<string>>)

  /** `toggleLike` on a button, for a viewer whose user record holds
      `user` (`None` when `window.currentUser` is null). The count is
      written first; reading `likedBy` or the user's name can then throw,
      which leaves the class as it was. */
  function ToggleLike(b: LikeButton, resp: LikeResponse, user: Option<string>): (r: LikeButton)
    ensures !resp.LikeAnswer? ==> r == b
    ensures resp.LikeAnswer? ==> r.count == resp.likes
    ensures resp.LikeAnswer? && resp.likedBy.Some? && user.Some? ==>
              (r.liked <==> user.value in resp.likedBy.value)
    ensures resp.LikeAnswer? && (resp.likedBy.None? || user.None?) ==> r.liked == b.liked
  {
    match resp
    case LikeAnswer(likes, likedBy) =>
      var counted := b.(count := likes);
      if likedBy.Some? && user.Some? then counted.(liked := user.value in likedBy.value)
      else counted
    case _ => b
  }

  /** Two likes in a row whose answers the server alternates: the button
      ends with the second answer's count, and is marked liked exactly when
      the viewer is among the second answer's likers. */
  lemma LikeTwiceFollowsServer(b: LikeButton, likes1: int, by1: seq<string>, likes2: int, by2: seq<string>, user: string)
    ensures var r := ToggleLike(ToggleLike(b, LikeAnswer(likes1, Some(by1)), Some(user)),
                                LikeAnswer(likes2, Some(by2)), Some(user));
      r.count == likes2 && (r.liked <==> user in by2)
  {
  }
}

# Verified model of the feed, playback, comment and notification rules of the short-video client

The client (`script.js`) is a browser front end for a short-video platform: an
infinite-scroll feed of videos with like, comment and share controls, nested
comment threads with replies, and a notification list with an unread badge.
Almost all of it is DOM building and `fetch` calls. This project models the
decision rules inside that glue, with the network, the DOM and the clock turned
into inputs, and proves what they guarantee:

- **Feed pagination** (`feed.dfy`, module `Feed`). The module-level `currentPage`,
  `totalPages` and `loading` variables plus the feed's contents form the
  `FeedController` class. `loadVideos(page, append)` is `Request`, split into the
  guard `Begin`, the success path `Complete` and the error path `Fail`. The
  scroll listener is `OnScroll`. The server's answer to the page request is a
  parameter (`PageResponse`). `Step` states the whole transition on a value of
  the state, and the methods are proved against it.
- **Playback arbiter** (`playback.dfy`, module `Playback`). The `muted` and
  `paused` properties of the feed's videos are two `array<bool>`s updated in
  place. `SetupSoundToggle` and `ClickSound` model `setupSoundToggle` and its
  click handler. `HandleEntry` and `HandleEntries` model the intersection
  observer's callback. Each method is proved against a function on sequences
  (`Clicked`, `AfterEntry`, `AfterEntries`), and "at most one unmuted" and "at
  most one playing" are proved of those functions.
- **Notification grouping** (`notifications.dfy`, module `Notifications`).
  `GroupByTime` is the single pass of `groupNotificationsByTime` that pushes onto
  four lists. It is proved equal to four order-preserving filters (`Select`),
  and those filters are proved to partition the input. Timestamps are integer
  milliseconds. The local calendar day that `toDateString` names is an arbitrary
  function `dayOf` carried in a `Clock` together with `now`.
- **Small classifiers** (`labels.dfy`, module `Labels`). These are `timeAgo`,
  the badge rule of `setNotifBadge`, the unread count of `fetchUnreadCount`, and
  the count and `liked` class that `toggleLike` sets.
- **Comment tree** (`comments.dfy`, module `Comments`). `renderComment` is a pure
  projection `Render` from the server's recursive `Comment` to a recursive `Item`.
  Each `Item` owns its replies list, which exists even when empty. The reply and
  comment-like handlers update that tree at the item's path (`AppendAt`,
  `SetLikesAt`). A path is the sequence of positions from the panel's top list,
  which is how each handler finds its own `li`. Opening the panel is `OpenPanel`.
- `time.dfy` (`Time`) holds `Math.floor` division and the day length.
  `wrappers.dfy` (`Wrappers`) holds `Option`, which models a JSON field that may
  be absent.

JavaScript details modelled explicitly:
- `x || fallback` on a number falls back only for an absent field or `0`. A
  negative page number from the server is kept (`OrElse`).
- `Math.floor` of a quotient by a positive constant is Dafny's `/`.
- A timestamp `new Date` cannot parse is `None`. Every comparison with it is
  false, so `groupNotificationsByTime` files it under "Earlier" and `timeAgo`
  prints the date "Invalid Date".
- An exception thrown half-way through a handler leaves the earlier writes in
  place. For example, `toggleLike` writes the count and then reads
  `window.currentUser.username`.

The notification list is rendered under the section titles "Today",
"Yesterday", "This Week" and "Earlier" (script.js:1101-1104), which name
calendar days. The grouping code counts elapsed 24-hour periods once the
calendar date differs from today's. The model follows the code
(`ElapsedCohort`). A calendar-day rule (`CalendarCohort`) is modelled beside it;
see Findings.

## Model

| member | source | states |
|---|---|---|
| `Time.FloorDiv` | script.js:1021 | `Math.floor(x / d)` for d > 0: the result q satisfies q·d ≤ x < q·d + d |
| `Feed.OrElse` | script.js:358-359 | `n \|\| fallback` keeps a present non-zero number and falls back for an absent field or 0 |
| `Feed.PageVideos` | script.js:313 | `data.videos \|\| []`: the page's videos, or none when the field is absent |
| `Feed.Admits` | script.js:301 | while loading, no page is admitted; otherwise page 1 always is, and any other page exactly when it is at most `totalPages` |
| `Feed.NearBottom` | script.js:1128 | the scroll condition holds exactly when the rest of the document below the viewport is at most 200 px |
| `Feed.Step` | script.js:300-365 | a rejected call leaves the state unchanged; an admitted call always ends unlocked; a non-ok answer or a network error leaves pages and feed unchanged; an ok answer adopts the server's page numbers with the requested page as fallback, and the new feed is the old feed (append) or nothing (replace), followed by the page's videos in response order |
| `Feed.FeedController.constructor` | script.js:296-298 | starts at page 1 of 1, unlocked, empty feed |
| `Feed.FeedController.Begin` | script.js:301-302 | admitted exactly when not loading and the page is ≤ totalPages or is 1; an admitted call only sets the lock, and then every page is refused; a refused call changes nothing |
| `Feed.FeedController.Complete` | script.js:308-363 | on an ok answer: the feed is cleared only when not appending, the videos are appended in order (loop), the pages are adopted, and the lock is released |
| `Feed.FeedController.Fail` | script.js:360-364 | on an error: only the lock changes (released) |
| `Feed.FeedController.Request` | script.js:300-365 | `loadVideos`: the new state is `Step` of the old one, and the call reports whether it was admitted |
| `Feed.FeedController.OnScroll` | script.js:1127-1131 | near the bottom (within 200 px), the state becomes `Step` for page `currentPage + 1` in append mode; otherwise nothing changes |
| `Feed.PageOneAlwaysAdmitted` | script.js:301 | page 1 is admitted whenever nothing is loading, whatever `totalPages` is |
| `Feed.InFlightLoadBlocksAll` | script.js:301 | while loading, any call is a no-op |
| `Feed.ScrollPastLastPageIsNoOp` | script.js:301 | scrolling at or past the last page (currentPage ≠ 0) changes nothing |
| `Feed.ScrollRunKeepsFeedPrefix` | script.js:311-349 | after any run of scroll-driven loads, the feed shown before it is still the feed's prefix: appending never drops or reorders items |
| `Feed.ScrollRunKeepsPagesPositive` | script.js:358-359 | currentPage ≥ 1 and totalPages ≥ 1 survive any run of scroll loads whose answers carry no negative page numbers |
| `Playback.Clicked` | script.js:437-447 | the clicked video's flag flips; clicking a muted video mutes every other video; clicking an unmuted one changes no other video |
| `Playback.ClickUnmutesOnlyTarget` | script.js:438-442 | after clicking a muted video, exactly that video is unmuted |
| `Playback.ClickKeepsAtMostOneUnmuted` | script.js:437-447 | "at most one unmuted" is an invariant of the click handler |
| `Playback.SetupSoundToggle` | script.js:434-435 | every feed video is muted, so at most one is unmuted |
| `Playback.ClickSound` | script.js:437-447 | the in-place loop leaves `muted` equal to `Clicked` of the old flags |
| `Playback.ClickedTimes` | script.js:433-449 | a handler registered k times on one video toggles k times in order; the flags keep their length |
| `Playback.DoubleRegistrationKeepsAllMuted` | script.js:433-449 | with two registrations, clicking a muted video leaves every video muted |
| `Playback.AfterEntry` | script.js:411-422 | a visible entry pauses every other video and leaves its own video playing only if `play()` resolved or it was already playing; a hidden entry pauses only its own video |
| `Playback.EntryKeepsAtMostOnePlaying` | script.js:411-422 | each entry keeps "at most one playing" |
| `Playback.IntersectingEntrySettles` | script.js:413-419 | a visible entry leaves at most one video playing from any state |
| `Playback.AfterEntries` | script.js:410-423 | a batch of entries is handled in order; the flags keep their length |
| `Playback.BatchKeepsAtMostOnePlaying` | script.js:410-423 | a whole batch keeps "at most one playing" |
| `Playback.BatchWithVisibleEntrySettles` | script.js:410-423 | a batch containing a visible entry leaves at most one video playing, whatever the state before it |
| `Playback.HandleEntry` | script.js:411-422 | the in-place loop leaves `paused` equal to `AfterEntry` of the old flags |
| `Playback.HandleEntries` | script.js:410-423 | the loop over the batch leaves `paused` equal to `AfterEntries` of the old flags |
| `Notifications.ElapsedCohort` | script.js:1016-1028 | the rule as written: an unparsable date is Earlier, and a notification is Today exactly when its calendar date is today's (the other bands are stated by `ElapsedCohortBands`) |
| `Notifications.CalendarCohort` | script.js:1016-1028 | the corrected rule: an unparsable date is Earlier, and Today is exactly today's calendar date (the other bands are stated by `CalendarCohortDays`) |
| `Notifications.ElapsedCohortBands` | script.js:1016-1029 | same calendar date gives Today; otherwise, in milliseconds, [1, 2) days ago gives Yesterday, less than 8 days ago (including under a day and the future) gives Week, and the rest gives Earlier; an unparsable date gives Earlier |
| `Notifications.CalendarCohortDays` | script.js:1016-1029 | corrected rule: calendar-day difference 0 is Today, 1 is Yesterday, up to 7 is Week, and more is Earlier |
| `Notifications.RulesAgreeOnToday` | script.js:1016-1019 | both rules put exactly the same notifications in Today |
| `Notifications.ElapsedRuleMisfilesLateYesterday` | script.js:1021-1025 | a notification from 23:00 yesterday, seen at 00:30, goes to Week, though its calendar date is yesterday |
| `Notifications.ElapsedRuleMisfilesTwoDaysAgo` | script.js:1021-1023 | a notification from 23:00 two days ago, seen at 00:30, goes to Yesterday |
| `Notifications.Select` | script.js:1014-1030 | a group, filtered in input order, is no longer than the input |
| `Notifications.SelectKeepsOrder` | script.js:1014-1030 | filtering distributes over concatenation: earlier inputs come earlier within their group |
| `Notifications.SelectPartitions` | script.js:1010-1032 | the four groups together are a permutation of the input (multiset equality) |
| `Notifications.SelectSizes` | script.js:1010-1032 | the four group sizes add up to the input length |
| `Notifications.InExactlyOneGroup` | script.js:1014-1030 | each input notification is in a group exactly when that group is its cohort |
| `Notifications.GroupByTime` | script.js:1009-1033 | the pushing loop returns, for every cohort, exactly the order-preserving filter of the input |
| `Labels.TimeAgo` | script.js:59-69 | exactly one bucket per elapsed time: < 60 s seconds, < 1 h minutes (1 to 59), < 24 h hours (1 to 23), < 48 h "Yesterday", otherwise the date; each count is the floored number of whole units |
| `Labels.NotificationAge` | script.js:1077 | an unparsable timestamp shows "Invalid Date"; a parsable one shows the `TimeAgo` label of its age, which is its date from two days on |
| `Labels.BadgeFor` | script.js:250-260 | hidden iff the count is ≤ 0, "99+" iff the count is > 99, otherwise the count itself (1 to 99) |
| `Labels.CountUnread` | script.js:271 | at most the list length, and 0 iff every notification is read |
| `Labels.CountUnreadIsUnreadPositions` | script.js:271 | the count equals the number of positions holding an unread notification |
| `Labels.UnreadCount` | script.js:262-276 | a failed fetch or a non-array body gives 0; a list gives its unread count: at most its length, 0 exactly when everything is read, and equal to the number of positions holding an unread notification |
| `Labels.BadgeHiddenIffNothingUnread` | script.js:250-276 | the polled badge is hidden exactly when the fetch failed, the body was not a list, or everything is read |
| `Labels.ToggleLike` | script.js:522-547 | a failed or non-ok request changes nothing; an ok answer sets the count, and marks the button liked iff the viewer's name is in `likedBy`; the class is kept when `likedBy` or the user is missing |
| `Labels.LikeTwiceFollowsServer` | script.js:522-547 | after two answers in a row, the button shows the second count and is liked iff the viewer is among the second likers |
| `Comments.LikesShown` | script.js:648 | `c.likes \|\| 0`: the server's count when present, otherwise 0 |
| `Comments.Render` | script.js:637-698 | the item shows the comment's id, video, author, text, time and like count, and has one reply item per reply |
| `Comments.RenderAll` | script.js:566 | rendering a list yields one top-level item per comment |
| `Comments.RenderKeepsTree` | script.js:637-697 | a rendered tree has exactly one item per comment node, in document order (comment before its replies, replies in order) |
| `Comments.RenderAllKeepsTree` | script.js:694-697 | the same for a list of comments |
| `Comments.RenderedReplies` | script.js:694-697 | a rendered comment has one direct reply item per reply, and each is that reply's rendering |
| `Comments.AppendAt` | script.js:691 | appending under a path adds the item at the end of that list and adds its size to the tree's item count |
| `Comments.AppendAtLeavesOtherLists` | script.js:684-691 | every other list keeps its length; every item keeps its own fields (id, author, text, time, likes); every list and item not on the way to the target is unchanged |
| `Comments.ReplyBody` | script.js:670-672 | nothing is posted for a cancelled or empty prompt; otherwise the text is posted as typed |
| `Comments.OnReply` | script.js:670-689 | no request or no created reply with text means no change; otherwise exactly the rendered reply is appended to that comment's own replies list |
| `Comments.FirstReplyLeavesSiblings` | script.js:670-691 | a reply to a comment without replies gives it exactly one reply item and leaves a sibling's replies unchanged |
| `Comments.SetLikesAt` | script.js:661-663 | the addressed item's like count becomes the new value; nothing else about it changes |
| `Comments.SetLikesAtLeavesOthers` | script.js:654-668 | every other item keeps its own fields (likes, id, author, text, time) and its number of replies; every item not above the changed one is unchanged |
| `Comments.OnLikeComment` | script.js:654-668 | the label changes only for an ok answer carrying `likes`, to that value; otherwise nothing changes |
| `Comments.OpenPanel` | script.js:550-574 | the list is rebuilt from the answer and the counter is set to the number of top-level comments; an unparsable body gives an empty list and 0; a failed fetch or a non-list leaves an empty list and the old counter |
| `Comments.PanelCountsTopLevelOnly` | script.js:566-569 | the counter equals the number of top-level items, which is at most the number of rendered items |

## Left out

- HTTP requests, response parsing, `localStorage` token helpers, `requireLogin` and `showNotification`. Responses are parameters of the model.
- DOM construction, markup templates, CSS classes other than `liked` and `hidden`, and tab and section switching.
- The `IntersectionObserver` set-up and its 0.7 threshold. `isIntersecting` and the outcome of `play()` are given per entry.
- The `autoplay` attribute every new feed video carries (script.js:320). It can start a video outside the observer callback, so "at most one playing" is proved for each callback run, not for the page at all times.
- Locale formatting (`toLocaleDateString`, `toLocaleTimeString`, `toDateString`). Labels carry the timestamp; the calendar day is the `dayOf` input.
- The double-tap heart animation. It uses `Math.random`, floating point and timers.
- The 30-second badge pollers. They are timer-driven I/O. Only the count they compute and the badge rule are modelled.
- Register, login, logout, profile, follow, search, upload and share handlers. They are form-to-request wrappers.
- The top-level "Send" comment handler (script.js:601-635). Its blank check uses JavaScript's `trim`, whose whitespace set is not modelled.
- Event-binding plumbing. Each handler is modelled as one invocation. The comment, send, close, overlay and share handlers are bound once at script load, before any feed item exists. The one duplicate registration with a visible effect is under Findings.
- Interleaving of overlapping asynchronous requests. The only exception is the feed lock: `Begin` and `Complete`/`Fail` are separate steps, so a call made in between is refused.
- The coupling between `loadVideos` and the playback arrays is not modelled. The feed controller does not resize or reset `muted`/`paused` when a page arrives. `SetupSoundToggle` on the whole feed is the reset that follows it.
- `Feed.Complete`: a `videos` field that is present but is not an array would throw after the feed was cleared. The model treats `videos` as absent or a list.
- `Labels.ToggleLike`: `data.likes` is taken to be a number. The text "undefined" shown for a missing count is not modelled.

## Findings

| source | as written | input that shows it | evidently intended | confidence | as-written member | corrected member |
|---|---|---|---|---|---|---|
| script.js:1021-1025 | once the calendar date differs from today's, the group is chosen by `Math.floor` of elapsed 24-hour periods | `now` = 00:30 on day 1 and `createdAt` = 23:00 on day 0: diffDays = 0, so it goes to "This Week"; `createdAt` = 23:00 on day 0 at 00:30 on day 2: diffDays = 1, so it goes to "Yesterday" | "Yesterday" is the previous calendar day and "This Week" the six days before it | medium, not executed | `Notifications.ElapsedRuleMisfilesLateYesterday` | `Notifications.CalendarCohortDays` |
| script.js:433-449 | every successful `loadVideos` calls `setupSoundToggle`, which adds another click listener to every video already in the feed | a first-page video after one appended page has two listeners; clicking it while muted unmutes it and then mutes it again, so it stays muted | one toggle per click, leaving the clicked video the only unmuted one | high, not executed | `Playback.DoubleRegistrationKeepsAllMuted` | `Playback.ClickUnmutesOnlyTarget` |

/** The comment panel of a feed item: `renderComment` turns a comment and
    its nested replies into `li.comment-item` elements, each holding its
    own `ul.replies` list, and the per-comment "Reply" and like buttons
    change that tree in place. The rendered panel is a value here: a list
    of items, each owning the list of its replies. An item is addressed by
    its path of positions from the panel's top list, which is what the
    handlers, closing over their own `li`, amount to. */
module Comments {
  import opened Wrappers

  /** A comment as the server sends it; `replies` are comments too. */
  datatype Comment = Comment(id: string, video: string, author: string, text: string,
                             createdAt: int, likes: Option<int>, replies: seq<Comment>)

  /** A rendered `li.comment-item`: the author, text, time and like count
      it shows, the ids its buttons post to, and its `ul.replies` list,
      which exists even when it is empty. */
  datatype Item = Item(id: string, video: string, author: string, text: string,
                       time: int, likes: int, replies: seq<Item>)

  // ----------------------------------------------------------- rendering

  /** `c.likes || 0`. */
  function LikesShown(likes: Option<int>): (n: int)
    ensures likes.Some? ==> n == likes.value
    ensures likes.None? ==> n == 0
  {
    if likes.Some? then likes.value else 0
  }

  /** `renderComment(c, list)`: the item for `c`, with its replies
      rendered, in order, into its own replies list. */
  function Render(c: Comment): (v: Item)
    ensures v.id == c.id && v.video == c.video && v.author == c.author
    ensures v.text == c.text && v.time == c.createdAt && v.likes == LikesShown(c.likes)
    ensures |v.replies| == |c.replies|
    decreases c, 1
  {
    Item(c.id, c.video, c.author, c.text, c.createdAt, LikesShown(c.likes), RenderAll(c.replies))
  }

  /** `cs.forEach(r => renderComment(r, list))` into an empty list. */
  function RenderAll(cs: seq<Comment>): (vs: seq<Item>)
    ensures |vs| == |cs|
    decreases cs, 0
  {
    if cs == [] then []
    else RenderAll(cs[..|cs| - 1]) + [Render(cs[|cs| - 1])]
  }

  /** The ids of a comment tree in document order: a comment before its
      replies, replies in order. */
  function CommentIds(c: Comment): (ids: seq<string>)
    decreases c, 1
  {
    [c.id] + CommentIdsAll(c.replies)
  }

  function CommentIdsAll(cs: seq<Comment>): (ids: seq<string>)
    decreases cs, 0
  {
    if cs == [] then [] else CommentIdsAll(cs[..|cs| - 1]) + CommentIds(cs[|cs| - 1])
  }

  /** The ids of the rendered items in document order. */
  function ItemIds(v: Item): (ids: seq<string>)
    decreases v, 1
  {
    [v.id] + ItemIdsAll(v.replies)
  }

  function ItemIdsAll(vs: seq<Item>): (ids: seq<string>)
    decreases vs, 0
  {
    if vs == [] then [] else ItemIdsAll(vs[..|vs| - 1]) + ItemIds(vs[|vs| - 1])
  }

  /** Rendering yields exactly one item per comment of the tree, in
      document order. */
  lemma {:induction false} RenderKeepsTree(c: Comment)
    ensures ItemIds(Render(c)) == CommentIds(c)
    decreases c, 1
  {
    RenderAllKeepsTree(c.replies);
  }

  lemma {:induction false} RenderAllKeepsTree(cs: seq<Comment>)
    ensures ItemIdsAll(RenderAll(cs)) == CommentIdsAll(cs)
    decreases cs, 0
  {
    if cs != [] {
      var init, last := cs[..|cs| - 1], cs[|cs| - 1];
      var vs := RenderAll(cs);
      assert vs[..|vs| - 1] == RenderAll(init);
      RenderAllKeepsTree(init);
      RenderKeepsTree(last);
    }
  }

  /** A rendered comment has one direct reply item per reply, each the
      rendering of that reply. */
  lemma RenderedReplies(c: Comment, i: nat)
    requires i < |c.replies|
    ensures |Render(c).replies| == |c.replies|
    ensures Render(c).replies[i] == Render(c.replies[i])
  {
    RenderAllAt(c.replies, i);
  }

  lemma {:induction false} RenderAllAt(cs: seq<Comment>, i: nat)
    requires i < |cs|
    ensures RenderAll(cs)[i] == Render(cs[i])
    decreases |cs|
  {
    if i < |cs| - 1 {
      RenderAllAt(cs[..|cs| - 1], i);
    }
  }

  // ----------------------------------------------------- counting items

  /** The number of items of a rendered tree. */
  function Size(v: Item): (n: nat)
    decreases v, 1
  {
    1 + SizeAll(v.replies)
  }

  function SizeAll(vs: seq<Item>): (n: nat)
    decreases vs, 0
  {
    if vs == [] then 0 else SizeAll(vs[..|vs| - 1]) + Size(vs[|vs| - 1])
  }

  /** Every item counts at least once: a list has at least as many items in
      all as it has directly. */
  lemma {:induction false} SizeAllAtLeastLength(vs: seq<Item>)
    ensures SizeAll(vs) >= |vs|
    decreases |vs|
  {
    if vs != [] {
      SizeAllAtLeastLength(vs[..|vs| - 1]);
    }
  }

  /** Replacing one item of a list changes the total by the difference of
      the two items' sizes. */
  lemma {:induction false} SizeAllUpdate(vs: seq<Item>, i: nat, v: Item)
    requires i < |vs|
    ensures SizeAll(vs[i := v]) == SizeAll(vs) - Size(vs[i]) + Size(v)
    decreases |vs|
  {
    var k := |vs| - 1;
    if i < k {
      assert vs[i := v][..k] == vs[..k][i := v];
      SizeAllUpdate(vs[..k], i, v);
    } else {
      assert vs[i := v][..k] == vs[..k];
    }
  }

  // ------------------------------------------------ addressing an item

  /** `p` leads through the tree: each position exists in the list it
      indexes. The empty path names the panel's top list. */
  predicate ValidPath(vs: seq<Item>, p: seq<nat>)
    decreases p
  {
    p == [] || (p[0] < |vs| && ValidPath(vs[p[0]].replies, p[1..]))
  }

  /** The list that path `p` names: the top list for the empty path, and
      otherwise the replies list of the item the path leads to. */
  function ListAt(vs: seq<Item>, p: seq<nat>): (l: seq<Item>)
    requires ValidPath(vs, p)
    decreases p
  {
    if p == [] then vs else ListAt(vs[p[0]].replies, p[1..])
  }

  /** The item a non-empty path leads to. */
  function ItemAt(vs: seq<Item>, p: seq<nat>): (v: Item)
    requires p != [] && ValidPath(vs, p)
    decreases p
  {
    if |p| == 1 then vs[p[0]] else ItemAt(vs[p[0]].replies, p[1..])
  }

  // ----------------------------------------------------- adding a reply

  /** `parentList.appendChild(li)` into the list that `p` names. */
  function AppendAt(vs: seq<Item>, p: seq<nat>, x: Item): (ws: seq<Item>)
    requires ValidPath(vs, p)
    ensures ValidPath(ws, p)
    ensures ListAt(ws, p) == ListAt(vs, p) + [x]
    ensures SizeAll(ws) == SizeAll(vs) + Size(x)
    decreases p
  {
    if p == [] then vs + [x]
    else
      var i := p[0];
      var v' := vs[i].(replies := AppendAt(vs[i].replies, p[1..], x));
      SizeAllUpdate(vs, i, v');
      vs[i := v']
  }

  /** Appending under `p` leaves every other list as long as it was,
      every item's own fields as they were, and every list and item that
      does not contain the new item (anything not on the way to `p`)
      exactly as it was. */
  lemma {:induction false} AppendAtLeavesOtherLists(vs: seq<Item>, p: seq<nat>, x: Item, q: seq<nat>)
    requires ValidPath(vs, p) && ValidPath(vs, q) && q != p
    ensures ValidPath(AppendAt(vs, p, x), q)
    ensures |ListAt(AppendAt(vs, p, x), q)| == |ListAt(vs, q)|
    ensures !(q <= p) ==> ListAt(AppendAt(vs, p, x), q) == ListAt(vs, q)
    ensures q != [] ==> ItemAt(AppendAt(vs, p, x), q).(replies := []) == ItemAt(vs, q).(replies := [])
    ensures q != [] && !(q <= p) ==> ItemAt(AppendAt(vs, p, x), q) == ItemAt(vs, q)
    decreases p
  {
    var ws := AppendAt(vs, p, x);
    if q == [] {
      assert p != [];
    } else if p == [] {
      assert ws[q[0]] == vs[q[0]];
    } else if q[0] != p[0] {
      assert ws[q[0]] == vs[q[0]];
      assert !(q <= p);
    } else {
      assert q[1..] != p[1..] by {
        assert q == [q[0]] + q[1..] && p == [p[0]] + p[1..];
      }
      AppendAtLeavesOtherLists(vs[p[0]].replies, p[1..], x, q[1..]);
      assert q <= p <==> q[1..] <= p[1..];
    }
  }

  /** The "Reply" button: `prompt` gives `None` when cancelled; nothing is
      posted for a cancelled or empty answer. The text is posted as typed. */
  function ReplyBody(input: Option<string>): (body: Option<string>)
    ensures body.Some? <==> input.Some? && input.value != ""
    ensures body.Some? ==> body.value == input.value
  {
    if input.Some? && input.value != "" then input else None
  }

  /** The reply handler of the item at `p`, the server answering `resp`
      (`None` when the request or `res.json()` failed, or the body was
      null): a created reply with a non-empty `text` is rendered at the end
      of the item's own replies list; anything else changes nothing. */
  function OnReply(vs: seq<Item>, p: seq<nat>, input: Option<string>, resp: Option<Comment>): (ws: seq<Item>)
    requires p != [] && ValidPath(vs, p)
    ensures ValidPath(ws, p)
    ensures ReplyBody(input).None? ==> ws == vs
    ensures resp.None? || resp.value.text == "" ==> ws == vs
    ensures ReplyBody(input).Some? && resp.Some? && resp.value.text != "" ==>
              && ListAt(ws, p) == ListAt(vs, p) + [Render(resp.value)]
              && SizeAll(ws) == SizeAll(vs) + Size(Render(resp.value))
  {
    if ReplyBody(input).Some? && resp.Some? && resp.value.text != "" then
      AppendAt(vs, p, Render(resp.value))
    else vs
  }

  /** Posting a reply to a comment that had none gives it exactly one
      reply item, and leaves the replies list of every comment beside it
      as it was. */
  lemma FirstReplyLeavesSiblings(vs: seq<Item>, i: nat, j: nat, text: string, reply: Comment)
    requires i < |vs| && j < |vs| && i != j
    requires vs[i].replies == []
    requires text != "" && reply.text != ""
    ensures var ws := OnReply(vs, [i], Some(text), Some(reply));
      && ws[i].replies == [Render(reply)]
      && ws[j].replies == vs[j].replies
  {
    var ws := OnReply(vs, [i], Some(text), Some(reply));
    assert ListAt(ws, [i]) == ws[i].replies;
    assert ListAt(vs, [i]) == vs[i].replies;
    AppendAtLeavesOtherLists(vs, [i], Render(reply), [j]);
    assert ListAt(ws, [j]) == ws[j].replies;
    assert ListAt(vs, [j]) == vs[j].replies;
  }

  // ------------------------------------------------------ liking a comment

  /** The like count shown by the item at `p` becomes `n`. */
  function SetLikesAt(vs: seq<Item>, p: seq<nat>, n: int): (ws: seq<Item>)
    requires p != [] && ValidPath(vs, p)
    ensures |ws| == |vs|
    ensures ValidPath(ws, p)
    ensures ItemAt(ws, p) == ItemAt(vs, p).(likes := n)
    decreases p
  {
    var i := p[0];
    if |p| == 1 then vs[i := vs[i].(likes := n)]
    else vs[i := vs[i].(replies := SetLikesAt(vs[i].replies, p[1..], n))]
  }

  /** Setting one item's count leaves every other item's own fields and
      its number of replies as they were, and every item that is not
      above the changed one exactly as it was. */
  lemma {:induction false} SetLikesAtLeavesOthers(vs: seq<Item>, p: seq<nat>, n: int, q: seq<nat>)
    requires p != [] && ValidPath(vs, p)
    requires q != [] && ValidPath(vs, q) && q != p
    ensures ValidPath(SetLikesAt(vs, p, n), q)
    ensures ItemAt(SetLikesAt(vs, p, n), q).likes == ItemAt(vs, q).likes
    ensures |ItemAt(SetLikesAt(vs, p, n), q).replies| == |ItemAt(vs, q).replies|
    ensures ItemAt(SetLikesAt(vs, p, n), q).(replies := []) == ItemAt(vs, q).(replies := [])
    ensures !(q <= p) ==> ItemAt(SetLikesAt(vs, p, n), q) == ItemAt(vs, q)
    decreases p
  {
    var ws := SetLikesAt(vs, p, n);
    if q[0] != p[0] {
      assert ws[q[0]] == vs[q[0]];
    } else if |q| == 1 {
      assert |p| > 1;
    } else if |p| == 1 {
      assert ws[q[0]].replies == vs[q[0]].replies;
    } else {
      assert q[1..] != p[1..] by {
        assert q == [q[0]] + q[1..] && p == [p[0]] + p[1..];
      }
      SetLikesAtLeavesOthers(vs[p[0]].replies, p[1..], n, q[1..]);
    }
  }

  /** What `POST .../comments/:cid/like` yields. */
  datatype LikeAnswer =
    | LikeFailed                              // the fetch or `res.json()` threw
    | Answered(ok: bool, likes: Option<int>)  // `likes` absent when undefined

  /** The like button of the item at `p`: the label changes only for an ok
      answer that carries a count; nothing is updated before the answer. */
  function OnLikeComment(vs: seq<Item>, p: seq<nat>, resp: LikeAnswer): (ws: seq<Item>)
    requires p != [] && ValidPath(vs, p)
    ensures ValidPath(ws, p)
    ensures resp.Answered? && resp.ok && resp.likes.Some? ==> ItemAt(ws, p).likes == resp.likes.value
    ensures !(resp.Answered? && resp.ok && resp.likes.Some?) ==> ws == vs
    ensures ItemAt(ws, p).replies == ItemAt(vs, p).replies
  {
    if resp.Answered? && resp.ok && resp.likes.Some? then SetLikesAt(vs, p, resp.likes.value) else vs
  }

  // ------------------------------------------------------- opening a panel

  /** What `GET /videos/:id/comments` yields to the panel. */
  datatype CommentsAnswer =
    | CommentsFailed       // the fetch rejected
    | CommentsUnparsable   // `res.json()` failed and was replaced by []
    | CommentsNotAList     // a parsed body without `forEach`: it throws
    | CommentList(cs: seq<Comment>)

  /** The panel: its comment list and the counter beside the button. */
  datatype Panel = Panel(list: seq<Item>, count: int)

  /** Opening the panel: the list is cleared before the fetch; a list of
      comments is rendered and the counter set to the number of top-level
      comments; failures leave the list empty and the counter as it was. */
  function OpenPanel(resp: CommentsAnswer, count: int): (r: Panel)
    ensures resp.CommentList? ==> r.list == RenderAll(resp.cs) && r.count == |resp.cs|
    ensures resp.CommentsUnparsable? ==> r == Panel([], 0)
    ensures resp.CommentsFailed? || resp.CommentsNotAList? ==> r == Panel([], count)
  {
    match resp
    case CommentList(cs) => Panel(RenderAll(cs), |cs|)
    case CommentsUnparsable => Panel([], 0)
    case _ => Panel([], count)
  }

  /** The counter shows the number of top-level comments, which is at
      most the number of items the panel renders, replies included. */
  lemma PanelCountsTopLevelOnly(cs: seq<Comment>, count: int)
    ensures var r := OpenPanel(CommentList(cs), count);
      r.count == |r.list| <= SizeAll(r.list)
  {
    SizeAllAtLeastLength(RenderAll(cs));
  }
}

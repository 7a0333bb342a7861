/** The playback arbiter over the feed's `<video>` elements: the sound
    toggle (`setupSoundToggle` and its click handler) and the autoplay
    observer callback (`setupAutoplay`). Video number `i` of the feed is
    index `i` of two arrays: `muted[i]` is its `muted` property and
    `paused[i]` its `paused` property. */
module Playback {

  /** At most one flag of the collection is false: at most one video is
      unmuted (over `muted`), or at most one is playing (over `paused`). */
  predicate AtMostOneFalse(flags: seq<bool>)
  {
    forall i, j :: 0 <= i < j < |flags| ==> flags[i] || flags[j]
  }

  // ---------------------------------------------------------------- sound

  /** The click handler on video `v`: a muted video mutes every video and
      then unmutes itself; an unmuted video mutes itself and nothing else. */
  function Clicked(muted: seq<bool>, v: nat): (r: seq<bool>)
    requires v < |muted|
    ensures |r| == |muted|
    ensures r[v] == !muted[v]
    ensures muted[v] ==> forall i :: 0 <= i < |r| && i != v ==> r[i]
    ensures !muted[v] ==> forall i :: 0 <= i < |r| && i != v ==> r[i] == muted[i]
  {
    if muted[v] then seq(|muted|, i => i != v) else muted[v := true]
  }

  /** Clicking a muted video leaves it the only unmuted one. */
  lemma ClickUnmutesOnlyTarget(muted: seq<bool>, v: nat, i: nat)
    requires v < |muted| && i < |muted|
    requires muted[v]
    ensures !Clicked(muted, v)[i] <==> i == v
  {
  }

  /** The click handler keeps "at most one unmuted", whatever was clicked. */
  lemma ClickKeepsAtMostOneUnmuted(muted: seq<bool>, v: nat)
    requires v < |muted|
    requires AtMostOneFalse(muted)
    ensures AtMostOneFalse(Clicked(muted, v))
  {
  }

  /** `video.muted = true` on every feed video. */
  method SetupSoundToggle(muted: array<bool>)
    modifies muted
    ensures forall i :: 0 <= i < muted.Length ==> muted[i]
    ensures AtMostOneFalse(muted[..])
  {
    for i := 0 to muted.Length
      invariant forall k :: 0 <= k < i ==> muted[k]
    {
      muted[i] := true;
    }
  }

  /** One run of the click handler on video `v`, in place. */
  method ClickSound(muted: array<bool>, v: nat)
    requires v < muted.Length
    modifies muted
    ensures muted[..] == Clicked(old(muted[..]), v)
  {
    if muted[v] {
      for i := 0 to muted.Length
        invariant forall k :: 0 <= k < i ==> muted[k]
      {
        muted[i] := true;
      }
      muted[v] := false;
      assert muted[..] == seq(muted.Length, i => i != v);
    } else {
      muted[v] := true;
    }
  }

  /** The click handler as it runs when it has been registered `k` times on
      the same video: every registration toggles once, in order. */
  function ClickedTimes(muted: seq<bool>, v: nat, k: nat): (r: seq<bool>)
    requires v < |muted|
    ensures |r| == |muted|
    decreases k
  {
    if k == 0 then muted else ClickedTimes(Clicked(muted, v), v, k - 1)
  }

  /** With two registrations of the handler on a video (a first-page video
      after one appended page), clicking it while muted leaves every video
      muted: the first run unmutes it and the second mutes it again. */
  lemma DoubleRegistrationKeepsAllMuted(muted: seq<bool>, v: nat)
    requires v < |muted|
    requires muted[v]
    ensures forall i :: 0 <= i < |muted| ==> ClickedTimes(muted, v, 2)[i]
  {
    var once := Clicked(muted, v);
    assert ClickedTimes(muted, v, 2) == ClickedTimes(Clicked(once, v), v, 0);
  }

  // ------------------------------------------------------------- autoplay

  /** One intersection-observer entry: the observed video, whether it is
      in view, and whether its `play()` promise resolves (a rejected
      promise is swallowed and the video stays as it was). */
  datatype Entry = Entry(target: nat, isIntersecting: bool, playStarts: bool)

  /** The observer callback for one entry: a visible video pauses every
      other feed video and then tries to play; a hidden one is paused. */
  function AfterEntry(paused: seq<bool>, e: Entry): (r: seq<bool>)
    requires e.target < |paused|
    ensures |r| == |paused|
    ensures e.isIntersecting ==>
      && (forall i :: 0 <= i < |r| && i != e.target ==> r[i])
      && r[e.target] == (paused[e.target] && !e.playStarts)
    ensures !e.isIntersecting ==>
      && r[e.target]
      && forall i :: 0 <= i < |r| && i != e.target ==> r[i] == paused[i]
  {
    if e.isIntersecting then
      seq(|paused|, i => if i == e.target then paused[i] && !e.playStarts else true)
    else paused[e.target := true]
  }

  /** An entry keeps "at most one playing". */
  lemma EntryKeepsAtMostOnePlaying(paused: seq<bool>, e: Entry)
    requires e.target < |paused|
    requires AtMostOneFalse(paused)
    ensures AtMostOneFalse(AfterEntry(paused, e))
  {
  }

  /** A visible entry establishes "at most one playing" from any state,
      even when every video was autoplaying before. */
  lemma IntersectingEntrySettles(paused: seq<bool>, e: Entry)
    requires e.target < |paused|
    requires e.isIntersecting
    ensures AtMostOneFalse(AfterEntry(paused, e))
  {
  }

  predicate Targets(entries: seq<Entry>, n: nat)
  {
    forall k :: 0 <= k < |entries| ==> entries[k].target < n
  }

  /** A batch of entries, handled in order. */
  function AfterEntries(paused: seq<bool>, entries: seq<Entry>): (r: seq<bool>)
    requires Targets(entries, |paused|)
    ensures |r| == |paused|
    decreases |entries|
  {
    if entries == [] then paused
    else AfterEntry(AfterEntries(paused, entries[..|entries| - 1]), entries[|entries| - 1])
  }

  /** A batch keeps "at most one playing". */
  lemma {:induction false} BatchKeepsAtMostOnePlaying(paused: seq<bool>, entries: seq<Entry>)
    requires Targets(entries, |paused|)
    requires AtMostOneFalse(paused)
    ensures AtMostOneFalse(AfterEntries(paused, entries))
    decreases |entries|
  {
    if entries != [] {
      var init := entries[..|entries| - 1];
      BatchKeepsAtMostOnePlaying(paused, init);
      EntryKeepsAtMostOnePlaying(AfterEntries(paused, init), entries[|entries| - 1]);
    }
  }

  /** A batch that holds a visible entry leaves at most one video playing,
      whatever the state before it. */
  lemma {:induction false} BatchWithVisibleEntrySettles(paused: seq<bool>, entries: seq<Entry>, k: nat)
    requires Targets(entries, |paused|)
    requires k < |entries| && entries[k].isIntersecting
    ensures AtMostOneFalse(AfterEntries(paused, entries))
    decreases |entries|
  {
    var last := |entries| - 1;
    var init := entries[..last];
    if k == last {
      IntersectingEntrySettles(AfterEntries(paused, init), entries[last]);
    } else {
      BatchWithVisibleEntrySettles(paused, init, k);
      EntryKeepsAtMostOnePlaying(AfterEntries(paused, init), entries[last]);
    }
  }

  /** The observer callback on one entry, in place. */
  method HandleEntry(paused: array<bool>, e: Entry)
    requires e.target < paused.Length
    modifies paused
    ensures paused[..] == AfterEntry(old(paused[..]), e)
  {
    if e.isIntersecting {
      for i := 0 to paused.Length
        invariant forall k :: 0 <= k < i && k != e.target ==> paused[k]
        invariant forall k :: i <= k < paused.Length || k == e.target ==>
                    0 <= k < paused.Length ==> paused[k] == old(paused[k])
      {
        if i != e.target {
          paused[i] := true;
        }
      }
      if e.playStarts {
        paused[e.target] := false;
      }
      assert paused[..] == AfterEntry(old(paused[..]), e);
    } else {
      paused[e.target] := true;
    }
  }

  /** The observer callback on a batch of entries, in order. */
  method HandleEntries(paused: array<bool>, entries: seq<Entry>)
    requires Targets(entries, paused.Length)
    modifies paused
    ensures paused[..] == AfterEntries(old(paused[..]), entries)
  {
    for j := 0 to |entries|
      invariant paused[..] == AfterEntries(old(paused[..]), entries[..j])
    {
      assert entries[..j + 1][..j] == entries[..j];
      HandleEntry(paused, entries[j]);
    }
    assert entries[..|entries|] == entries;
  }
}

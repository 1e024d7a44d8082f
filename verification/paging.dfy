/** The pager under every list page: next/previous buttons and the
    "Showing a to b of n results" line. */
module Pagination {
  import opened Common

  /** `Math.ceil(totalEntries / entries)`: the last page that has entries. */
  function LastPage(total: nat, entries: nat): nat
    requires entries > 0
  {
    CeilDiv(total, entries)
  }

  /** The highest page the pager can be on: the last page, or 1 for an empty list. */
  function TopPage(total: nat, entries: nat): nat
    requires entries > 0
  {
    if LastPage(total, entries) > 1 then LastPage(total, entries) else 1
  }

  /** `handleNextPage` */
  function NextPage(page: int, entries: nat, total: nat): (p: int)
    requires entries > 0
    ensures page < LastPage(total, entries) ==> p == page + 1
    ensures page >= LastPage(total, entries) ==> p == page
  {
    if page < LastPage(total, entries) then page + 1 else page
  }

  /** `handlePreviousPage` */
  function PrevPage(page: int): (p: int)
    ensures page > 1 ==> p == page - 1
    ensures page <= 1 ==> p == page
  {
    if page > 1 then page - 1 else page
  }

  datatype Move = Next | Prev

  /** The page after a run of button clicks. */
  function Walk(page: int, moves: seq<Move>, entries: nat, total: nat): int
    requires entries > 0
    decreases |moves|
  {
    if |moves| == 0 then page
    else
      var p := if moves[0] == Next then NextPage(page, entries, total) else PrevPage(page);
      Walk(p, moves[1..], entries, total)
  }

  /** Starting on a page between 1 and the top page, no run of clicks leaves
      that range. */
  lemma {:induction false} WalkStaysInRange(page: int, moves: seq<Move>, entries: nat, total: nat)
    requires entries > 0
    requires 1 <= page <= TopPage(total, entries)
    ensures 1 <= Walk(page, moves, entries, total) <= TopPage(total, entries)
    decreases |moves|
  {
    if |moves| > 0 {
      var p := if moves[0] == Next then NextPage(page, entries, total) else PrevPage(page);
      WalkStaysInRange(p, moves[1..], entries, total);
    }
  }

  /** With no entries at all, "next" never moves off a real page. */
  lemma NextOnEmptyList(page: int, entries: nat)
    requires entries > 0 && page >= 0
    ensures NextPage(page, entries, 0) == page
  {
  }

  /** `(page - 1) * entries + 1` */
  function FirstShown(page: int, entries: nat): int {
    (page - 1) * entries + 1
  }

  /** `Math.min(page * entries, totalEntries)` */
  function LastShown(page: int, entries: nat, total: nat): (last: int)
    ensures last <= total
    ensures last <= page * entries
    ensures last == total || last == page * entries
  {
    if page * entries < total then page * entries else total
  }

  /** On any page that holds entries, the line names a non-empty range of at
      most `entries` positions inside 1..total, and the next page's range
      starts right after this one's. */
  lemma ShownRange(page: int, entries: nat, total: nat)
    requires entries > 0
    requires 1 <= page <= LastPage(total, entries)
    ensures 1 <= FirstShown(page, entries) <= LastShown(page, entries, total) <= total
    ensures LastShown(page, entries, total) - FirstShown(page, entries) < entries
    ensures page < LastPage(total, entries) ==>
              LastShown(page, entries, total) + 1 == FirstShown(page + 1, entries)
  {
    var q := LastPage(total, entries);
    MulMonotone(page - 1, q - 1, entries);
    assert (q - 1) * entries < total;
    if page < q {
      MulMonotone(page, q - 1, entries);
    }
  }
}

/** The media library page: the full-screen viewer's carousel, its keyboard
    shortcuts, the per-group type counts and the local delete. */
module MediaGallery {
  import opened Common
  import Sequences

  datatype MediaItem = MediaItem(filetype: string, url: string)

  /** A media group; `media` is `None` when the record has no `media` array. */
  datatype MediaGroup = MediaGroup(id: string, title: string, media: Option<seq<MediaItem>>)

  /** The viewer's three pieces of state. */
  datatype Viewer = Viewer(isOpen: bool, group: Option<MediaGroup>, index: int)

  /** `closeMediaModal` */
  const Closed := Viewer(false, None, 0)

  /** The index after `goToNextMedia` with `n` items. */
  function NextIndex(i: int, n: int): (j: int)
    ensures n >= 1 && 0 <= i < n ==> 0 <= j < n
    ensures i < n - 1 ==> j == i + 1
    ensures i >= n - 1 ==> j == 0
  {
    if i < n - 1 then i + 1 else 0
  }

  /** The index after `goToPrevMedia` with `n` items; on an empty group it
      becomes -1. */
  function PrevIndex(i: int, n: int): (j: int)
    ensures n >= 1 && 0 <= i < n ==> 0 <= j < n
    ensures i > 0 ==> j == i - 1
    ensures i <= 0 ==> j == n - 1
  {
    if i > 0 then i - 1 else n - 1
  }

  /** Within a non-empty group, next and previous undo each other. */
  lemma NextPrevInverse(i: int, n: int)
    requires 0 <= i < n
    ensures NextIndex(PrevIndex(i, n), n) == i
    ensures PrevIndex(NextIndex(i, n), n) == i
  {
  }

  function NextTimes(i: int, n: int, k: nat): int
    decreases k
  {
    if k == 0 then i else NextIndex(NextTimes(i, n, k - 1), n)
  }

  /** Before the end of the group, `k` presses of "next" move `k` items on. */
  lemma {:induction false} NextTimesAdvance(i: int, n: int, k: nat)
    requires 0 <= i && i + k < n
    ensures NextTimes(i, n, k) == i + k
    decreases k
  {
    if k > 0 {
      NextTimesAdvance(i, n, k - 1);
    }
  }

  lemma {:induction false} NextTimesCompose(i: int, n: int, a: nat, b: nat)
    ensures NextTimes(i, n, a + b) == NextTimes(NextTimes(i, n, a), n, b)
    decreases b
  {
    if b > 0 {
      NextTimesCompose(i, n, a, b - 1);
    }
  }

  /** `n` presses of "next" in a group of `n` come back to the starting item. */
  lemma FullCircle(i: int, n: int)
    requires 0 <= i < n
    ensures NextTimes(i, n, n) == i
  {
    NextTimesCompose(i, n, n - i, i);
    NextTimesAdvance(i, n, n - i - 1);
    assert NextTimes(i, n, n - i) == 0;
    NextTimesAdvance(0, n, i);
  }

  /** The navigation handlers act only when a group with a media array is selected. */
  function GoNext(v: Viewer): (r: Viewer)
    ensures r.isOpen == v.isOpen && r.group == v.group
    ensures (v.group.None? || v.group.value.media.None?) ==> r == v
  {
    if v.group.Some? && v.group.value.media.Some? then
      v.(index := NextIndex(v.index, |v.group.value.media.value|))
    else v
  }

  function GoPrev(v: Viewer): (r: Viewer)
    ensures r.isOpen == v.isOpen && r.group == v.group
    ensures (v.group.None? || v.group.value.media.None?) ==> r == v
  {
    if v.group.Some? && v.group.value.media.Some? then
      v.(index := PrevIndex(v.index, |v.group.value.media.value|))
    else v
  }

  /** The `keydown` listener. */
  function HandleKey(v: Viewer, key: string): (r: Viewer)
    ensures !v.isOpen ==> r == v
    ensures v.isOpen && key == "ArrowLeft" ==> r == GoPrev(v)
    ensures v.isOpen && key == "ArrowRight" ==> r == GoNext(v)
    ensures v.isOpen && key == "Escape" ==> r == Closed
    ensures key !in {"ArrowLeft", "ArrowRight", "Escape"} ==> r == v
  {
    if !v.isOpen then v
    else if key == "ArrowLeft" then GoPrev(v)
    else if key == "ArrowRight" then GoNext(v)
    else if key == "Escape" then Closed
    else v
  }

  /** An open viewer on a non-empty group keeps its index on an item, whatever
      keys are pressed, until it is closed. */
  lemma {:induction false} KeysKeepIndexInRange(v: Viewer, keys: seq<string>)
    requires v.isOpen && v.group.Some? && v.group.value.media.Some?
    requires 0 <= v.index < |v.group.value.media.value|
    ensures var r := HandleKeys(v, keys);
            r == Closed || (r.group == v.group && 0 <= r.index < |v.group.value.media.value|)
    decreases |keys|
  {
    if |keys| > 0 {
      var w := HandleKey(v, keys[0]);
      if w != Closed {
        KeysKeepIndexInRange(w, keys[1..]);
      } else {
        ClosedIgnoresKeys(keys[1..]);
      }
    }
  }

  lemma {:induction false} ClosedIgnoresKeys(keys: seq<string>)
    ensures HandleKeys(Closed, keys) == Closed
    decreases |keys|
  {
    if |keys| > 0 {
      ClosedIgnoresKeys(keys[1..]);
    }
  }

  function HandleKeys(v: Viewer, keys: seq<string>): Viewer
    decreases |keys|
  {
    if |keys| == 0 then v else HandleKeys(HandleKey(v, keys[0]), keys[1..])
  }

  datatype MediaStats = MediaStats(image: nat, video: nat, youtube: nat)

  predicate IsKnownType(t: string) {
    t == "image" || t == "video" || t == "youtube"
  }

  /** `getMediaTypeStats`: counts of the three known file types. An absent
      list counts nothing. */
  function MediaTypeStats(items: Option<seq<MediaItem>>): (st: MediaStats)
    ensures items.None? ==> st == MediaStats(0, 0, 0)
    ensures items.Some? ==>
              st.image == Sequences.CountWhere(items.value, (m: MediaItem) => m.filetype == "image")
              && st.video == Sequences.CountWhere(items.value, (m: MediaItem) => m.filetype == "video")
              && st.youtube == Sequences.CountWhere(items.value, (m: MediaItem) => m.filetype == "youtube")
  {
    if items.None? then MediaStats(0, 0, 0) else CountTypes(items.value)
  }

  function CountTypes(items: seq<MediaItem>): (st: MediaStats)
    ensures st.image == Sequences.CountWhere(items, (m: MediaItem) => m.filetype == "image")
    ensures st.video == Sequences.CountWhere(items, (m: MediaItem) => m.filetype == "video")
    ensures st.youtube == Sequences.CountWhere(items, (m: MediaItem) => m.filetype == "youtube")
    ensures st.image + st.video + st.youtube
            == Sequences.CountWhere(items, (m: MediaItem) => IsKnownType(m.filetype))
    decreases |items|
  {
    if |items| == 0 then MediaStats(0, 0, 0)
    else
      var rest := CountTypes(items[1..]);
      var t := items[0].filetype;
      MediaStats(rest.image + (if t == "image" then 1 else 0),
                 rest.video + (if t == "video" then 1 else 0),
                 rest.youtube + (if t == "youtube" then 1 else 0))
  }

  /** The three counts never add up to more than the number of items, and
      reach it exactly when every item has a known type. */
  lemma StatsBounded(items: seq<MediaItem>)
    ensures var st := MediaTypeStats(Some(items));
            st.image + st.video + st.youtube <= |items|
    ensures var st := MediaTypeStats(Some(items));
            st.image + st.video + st.youtube == |items| <==> forall k :: 0 <= k < |items| ==> IsKnownType(items[k].filetype)
  {
    Sequences.CountWhereAll(items, (m: MediaItem) => IsKnownType(m.filetype));
  }

  function GroupId(g: MediaGroup): string {
    g.id
  }

  /** `handleDelete`: after confirmation, the groups with that id are removed
      from the page's list; no request is made. */
  function DeleteGroup(groups: seq<MediaGroup>, id: string, confirmed: bool): (r: seq<MediaGroup>)
    ensures !confirmed ==> r == groups
    ensures confirmed ==> Sequences.IsSubsequence(r, groups)
    ensures confirmed ==> forall g :: g in r <==> g in groups && g.id != id
    ensures confirmed ==> |r| == |groups| - Sequences.CountKey(groups, GroupId, id)
  {
    if confirmed then
      Sequences.WithoutKeySpec(groups, GroupId, id);
      Sequences.WithoutKey(groups, GroupId, id)
    else groups
  }
}

/** The logic of the administrator page (frontend/js/admin.js) that is not
    DOM plumbing: the pagination bar of the store file list, the date label
    of a document version, and the status label and actions of a correction
    card. HTML is reduced to the sequence of elements it shows. */
module AdminView {
  import opened Common
  import opened Schema

  // ---- pagination ----

  /** An element of the pagination bar. */
  datatype Item =
    | PrevButton(target: int)
    | PageButton(page: int, active: bool)
    | Gap
    | NextButton(target: int)

  function Max(a: int, b: int): int
  {
    if a < b then b else a
  }

  function Min(a: int, b: int): int
  {
    if a < b then a else b
  }

  /** `startP = Math.max(1, current - 3)`. */
  function WindowStart(current: int): int
  {
    Max(1, current - 3)
  }

  /** `endP = Math.min(total, current + 3)`. */
  function WindowEnd(current: int, total: int): int
  {
    Min(total, current + 3)
  }

  /** The numbered buttons `startP..endP`, the current one active. */
  function Pages(start: int, end: int, current: int): seq<Item>
    decreases end - start
  {
    if start <= end then Pages(start, end - 1, current) + [PageButton(end, end == current)]
    else []
  }

  /** Page `start + i` is the `i`-th button, active exactly when it is the current page. */
  lemma {:induction false} PagesAt(start: int, end: int, current: int)
    decreases end - start
    ensures |Pages(start, end, current)| == if start <= end then end - start + 1 else 0
    ensures forall i :: 0 <= i < |Pages(start, end, current)| ==>
              Pages(start, end, current)[i] == PageButton(start + i, start + i == current)
  {
    if start <= end {
      PagesAt(start, end - 1, current);
    }
  }

  /** The elements before the numbered window: the previous button and the
      "1 …" shortcut, each when it applies. */
  function Lead(current: int, start: int): seq<Item>
  {
    (if current > 1 then [PrevButton(current - 1)] else [])
    + (if start > 1 then [PageButton(1, false), Gap] else [])
  }

  /** The elements after it: the "… total" shortcut and the next button. */
  function Trail(current: int, end: int, total: int): seq<Item>
  {
    (if end < total then [Gap, PageButton(total, false)] else [])
    + (if current < total then [NextButton(current + 1)] else [])
  }

  /** What `renderStoreFilePagination(current, total)` shows, element by element. */
  function Pagination(current: int, total: int): seq<Item>
  {
    if total <= 1 then []
    else
      var s := WindowStart(current);
      var e := WindowEnd(current, total);
      Lead(current, s) + Pages(s, e, current) + Trail(current, e, total)
  }

  /** `renderStoreFilePagination`, with its accumulating `html` as a list. */
  method RenderStoreFilePagination(current: int, total: int) returns (items: seq<Item>)
    ensures items == Pagination(current, total)
  {
    if total <= 1 {
      return [];
    }
    items := [];
    if current > 1 {
      items := items + [PrevButton(current - 1)];
    }
    var startP := Max(1, current - 3);
    var endP := Min(total, current + 3);
    if startP > 1 {
      items := items + [PageButton(1, false), Gap];
    }
    assert items == Lead(current, startP);
    ghost var head := items;
    var p := startP;
    while p <= endP
      invariant startP <= p <= Max(startP, endP + 1)
      invariant items == head + Pages(startP, p - 1, current)
      decreases endP - p
    {
      ghost var before := Pages(startP, p - 1, current);
      assert Pages(startP, p, current) == before + [PageButton(p, p == current)];
      items := items + [PageButton(p, p == current)];
      assert items == head + (before + [PageButton(p, p == current)]);
      p := p + 1;
    }
    ghost var body := items;
    assert body == Lead(current, startP) + Pages(startP, endP, current);
    if endP < total {
      items := items + [Gap, PageButton(total, false)];
    }
    if current < total {
      items := items + [NextButton(current + 1)];
    }
    assert items == body + Trail(current, endP, total);
  }

  /** The numbered window spans at most seven pages. */
  lemma WindowAtMostSeven(current: int, total: int)
    ensures |Pages(WindowStart(current), WindowEnd(current, total), current)| <= 7
  {
    PagesAt(WindowStart(current), WindowEnd(current, total), current);
  }

  function Active(x: Item): bool
  {
    x.PageButton? && x.active
  }

  /** With more than one page and the current page in range, exactly one
      button has the active style, and it is the current page's. */
  lemma OneActive(current: int, total: int)
    requires 1 <= current <= total && total > 1
    ensures var items := Pagination(current, total);
            && (exists i :: 0 <= i < |items| && Active(items[i]))
            && (forall i, j :: 0 <= i < |items| && 0 <= j < |items| && Active(items[i]) && Active(items[j]) ==> i == j)
            && (forall i :: 0 <= i < |items| && Active(items[i]) ==> items[i].page == current)
  {
    var s := WindowStart(current);
    var e := WindowEnd(current, total);
    var pages := Pages(s, e, current);
    PagesAt(s, e, current);
    var lead := Lead(current, s);
    assert pages[current - s] == PageButton(current, true);
    ActiveOnlyInMiddle(lead, pages, Trail(current, e, total));
    assert Pagination(current, total)[|lead| + (current - s)] == pages[current - s];
  }

  /** In `pre + mid + post` with no active button in `pre` or `post`, every
      active button is one of `mid`'s. */
  lemma ActiveOnlyInMiddle(pre: seq<Item>, mid: seq<Item>, post: seq<Item>)
    requires forall i :: 0 <= i < |pre| ==> !Active(pre[i])
    requires forall i :: 0 <= i < |post| ==> !Active(post[i])
    ensures forall i :: 0 <= i < |pre + mid + post| && Active((pre + mid + post)[i]) ==>
              |pre| <= i < |pre| + |mid| && (pre + mid + post)[i] == mid[i - |pre|]
    ensures forall i :: 0 <= i < |mid| ==> (pre + mid + post)[|pre| + i] == mid[i]
  {
  }

  predicate HasPrev(items: seq<Item>)
  {
    exists i :: 0 <= i < |items| && items[i].PrevButton?
  }

  predicate HasNext(items: seq<Item>)
  {
    exists i :: 0 <= i < |items| && items[i].NextButton?
  }

  lemma HasPrevConcat(a: seq<Item>, b: seq<Item>)
    ensures HasPrev(a + b) <==> HasPrev(a) || HasPrev(b)
  {
    if HasPrev(a + b) {
      var i :| 0 <= i < |a + b| && (a + b)[i].PrevButton?;
      if i >= |a| {
        assert b[i - |a|].PrevButton?;
      }
    }
    if HasPrev(a) {
      var i :| 0 <= i < |a| && a[i].PrevButton?;
      assert (a + b)[i].PrevButton?;
    }
    if HasPrev(b) {
      var i :| 0 <= i < |b| && b[i].PrevButton?;
      assert (a + b)[|a| + i].PrevButton?;
    }
  }

  lemma HasNextConcat(a: seq<Item>, b: seq<Item>)
    ensures HasNext(a + b) <==> HasNext(a) || HasNext(b)
  {
    if HasNext(a + b) {
      var i :| 0 <= i < |a + b| && (a + b)[i].NextButton?;
      if i >= |a| {
        assert b[i - |a|].NextButton?;
      }
    }
    if HasNext(a) {
      var i :| 0 <= i < |a| && a[i].NextButton?;
      assert (a + b)[i].NextButton?;
    }
    if HasNext(b) {
      var i :| 0 <= i < |b| && b[i].NextButton?;
      assert (a + b)[|a| + i].NextButton?;
    }
  }

  /** Nothing is shown for a single page; otherwise there is a previous
      button exactly when `current > 1` and a next button exactly when
      `current < total`. */
  lemma PrevNextShown(current: int, total: int)
    ensures total <= 1 ==> Pagination(current, total) == []
    ensures total > 1 ==> (HasPrev(Pagination(current, total)) <==> current > 1)
    ensures total > 1 ==> (HasNext(Pagination(current, total)) <==> current < total)
  {
    if total > 1 {
      var s := WindowStart(current);
      var e := WindowEnd(current, total);
      var lead := Lead(current, s);
      var pages := Pages(s, e, current);
      var trail := Trail(current, e, total);
      PagesAt(s, e, current);
      HasPrevConcat(lead + pages, trail);
      HasPrevConcat(lead, pages);
      HasNextConcat(lead + pages, trail);
      HasNextConcat(lead, pages);
      if current > 1 {
        assert lead[0].PrevButton?;
      }
      if current < total {
        assert trail[|trail| - 1].NextButton?;
      }
    }
  }

  /** With the current page in range, the "1 …" shortcut follows the
      previous button exactly when the window starts after page 1. */
  lemma FirstShortcut(current: int, total: int)
    requires 1 <= current <= total && total > 1
    ensures WindowStart(current) > 1 <==>
              var items := Pagination(current, total);
              var k := if current > 1 then 1 else 0;
              |items| >= k + 2 && items[k] == PageButton(1, false) && items[k + 1] == Gap
  {
    var s := WindowStart(current);
    var e := WindowEnd(current, total);
    var lead := Lead(current, s);
    var pages := Pages(s, e, current);
    var items := Pagination(current, total);
    PagesAt(s, e, current);
    var k := if current > 1 then 1 else 0;
    assert items == lead + pages + Trail(current, e, total);
    if s > 1 {
      assert items[k] == lead[k] && items[k + 1] == lead[k + 1];
    } else if current > 1 {
      assert items[1] == pages[0] && items[2] == pages[1];
    } else {
      assert items[0] == pages[0];
    }
  }

  /** With the current page in range, the "… total" shortcut precedes the
      next button exactly when the window ends before the last page. */
  lemma LastShortcut(current: int, total: int)
    requires 1 <= current <= total && total > 1
    ensures WindowEnd(current, total) < total <==>
              var items := Pagination(current, total);
              var k := if current < total then 1 else 0;
              |items| >= k + 2 && items[|items| - k - 2] == Gap && items[|items| - k - 1] == PageButton(total, false)
  {
    var s := WindowStart(current);
    var e := WindowEnd(current, total);
    var trail := Trail(current, e, total);
    var pages := Pages(s, e, current);
    var head := Lead(current, s) + pages;
    var items := Pagination(current, total);
    PagesAt(s, e, current);
    var k := if current < total then 1 else 0;
    assert items == head + trail;
    var n := |items|;
    if e < total {
      assert items[n - k - 2] == trail[|trail| - k - 2] && items[n - k - 1] == trail[|trail| - k - 1];
    } else if current < total {
      assert items[n - 2] == pages[|pages| - 1] && items[n - 3] == pages[|pages| - 2];
    } else {
      assert items[n - 1] == pages[|pages| - 1];
    }
  }

  // ---- the date label ----

  const NoDateLabel: string := "날짜 없음"

  /** `d ? d.slice(0,4) + '-' + d.slice(4,6) + '-' + d.slice(6,8) : '날짜 없음'`. */
  function DateLabel(d: string): string
  {
    if d != "" then Slice(d, 0, 4) + "-" + Slice(d, 4, 6) + "-" + Slice(d, 6, 8) else NoDateLabel
  }

  /** An eight-character date `YYYYMMDD` is shown as `YYYY-MM-DD`: ten
      characters, dashes at 4 and 7, and the date itself once they are
      dropped. An empty date shows the no-date label. */
  lemma DateLabelRoundTrip(d: string)
    ensures d == "" ==> DateLabel(d) == NoDateLabel
    ensures |d| == 8 ==>
              var r := DateLabel(d);
              && |r| == 10 && r[4] == '-' && r[7] == '-'
              && r[..4] + r[5..7] + r[8..] == d
  {
    if |d| == 8 {
      var r := DateLabel(d);
      assert r == d[0..4] + "-" + d[4..6] + "-" + d[6..8];
      assert r[..4] == d[0..4] && r[5..7] == d[4..6] && r[8..] == d[6..8];
      assert d == d[0..4] + d[4..6] + d[6..8];
    }
  }

  // ---- the correction card ----

  /** The badge of `feedbackCardHTML`. */
  function StatusLabel(status: string): string
  {
    if status == "pending" then "⏳ 대기"
    else if status == "approved" then "✅ 승인"
    else "❌ 거절"
  }

  /** The approve and reject buttons render only for a pending correction. */
  predicate ShowsActions(status: string)
  {
    status == "pending"
  }

  /** The rejection reason renders for a rejected correction with a non-empty reason. */
  predicate ShowsRejectReason(status: string, reason: Option<string>)
  {
    status == "rejected" && reason.Some? && reason.value != ""
  }

  /** Over the schema's statuses: pending is `대기` with actions, approved is
      `승인`, and rejected and superseded are both `거절`; only a pending card
      offers approve and reject, and only a rejected card with a non-empty
      reason shows it. Two statuses share a badge exactly when both are
      rejected or superseded. */
  lemma CardForStatus(s: CorrectionStatus, t: CorrectionStatus, r: Option<string>)
    ensures StatusLabel(StatusName(s)) == match s
                                         case Pending => "⏳ 대기"
                                         case Approved => "✅ 승인"
                                         case Rejected => "❌ 거절"
                                         case Superseded => "❌ 거절"
    ensures ShowsActions(StatusName(s)) <==> s == Pending
    ensures ShowsRejectReason(StatusName(s), r) <==> s == Rejected && r.Some? && r.value != ""
    ensures StatusLabel(StatusName(s)) == StatusLabel(StatusName(t)) <==>
              s == t || (s in {Rejected, Superseded} && t in {Rejected, Superseded})
  {
  }
}

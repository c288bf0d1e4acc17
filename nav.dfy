/**
 * The active-navigation marker: which page is current, and which
 * navigation links carry the `active` class after one pass.
 */
module Nav {
  import opened Optional
  import opened Text

  const Active := "active"
  const HomePage := "index.html"

  /** A navigation link: its raw `href` attribute (`None` when absent) and its classes. */
  datatype Link = Link(href: Option<string>, classes: set<string>)

  /**
   * The current page: the text after the last `/` of the location's path,
   * or `index.html` when that text is empty.
   */
  function CurrentPage(pathname: string): (page: string)
    ensures page != [] && '/' !in page
    ensures pathname == [] || pathname[|pathname| - 1] == '/' ==> page == HomePage
    ensures pathname != [] && pathname[|pathname| - 1] != '/' ==>
      |page| <= |pathname| && page == pathname[|pathname| - |page|..] &&
      (|page| < |pathname| ==> pathname[|pathname| - |page| - 1] == '/')
  {
    LastSegmentSpec(pathname);
    var last := LastSegment(pathname);
    if last == [] then HomePage else last
  }

  /**
   * The index of the first link without an `href`, or the number of links
   * when every link has one. Reading the segment of a missing `href` throws,
   * so the pass stops there.
   */
  function FirstMissingHref(links: seq<Link>): (k: nat)
    ensures k <= |links|
    ensures forall i :: 0 <= i < k ==> links[i].href.Some?
    ensures k < |links| ==> links[k].href.None?
  {
    if links == [] || links[0].href.None? then 0
    else 1 + FirstMissingHref(links[1..])
  }

  /** The classes of a link after `active` is removed and, when `on`, added back. */
  function WithActive(classes: set<string>, on: bool): (r: set<string>)
    ensures Active in r <==> on
    ensures r - {Active} == classes - {Active}
  {
    if on then classes - {Active} + {Active} else classes - {Active}
  }

  /** One step of the pass: drop `active`, then add it back when the segments match. */
  function Mark(link: Link, page: string): (r: Link)
    requires link.href.Some?
    ensures r.href == link.href
    ensures Active in r.classes <==> LastSegment(link.href.value) == page
    ensures r.classes - {Active} == link.classes - {Active}
  {
    link.(classes := WithActive(link.classes, LastSegment(link.href.value) == page))
  }

  /**
   * The links after one pass for `page`: each link before the first one
   * without an `href` is marked, that link and all after it are left as
   * they were.
   */
  function MarkLinks(links: seq<Link>, page: string): (r: seq<Link>)
    ensures |r| == |links|
    ensures forall i :: 0 <= i < |r| ==> r[i].href == links[i].href
  {
    var stop := FirstMissingHref(links);
    seq(|links|, i requires 0 <= i < |links| => if i < stop then Mark(links[i], page) else links[i])
  }

  /**
   * After the pass, a link before the first one without an `href` carries
   * `active` exactly when the last segment of its `href` equals `page` (every
   * match, duplicates included), and keeps its other classes; every `href`
   * is unchanged. The pass never reaches the first link without an `href`
   * or any link after it: those keep their classes.
   */
  lemma MarkLinksActiveIff(links: seq<Link>, page: string, i: int)
    requires 0 <= i < |links|
    ensures MarkLinks(links, page)[i].href == links[i].href
    ensures i < FirstMissingHref(links) ==>
      (Active in MarkLinks(links, page)[i].classes <==> LastSegment(links[i].href.value) == page) &&
      MarkLinks(links, page)[i].classes - {Active} == links[i].classes - {Active}
    ensures FirstMissingHref(links) <= i ==> MarkLinks(links, page)[i] == links[i]
  {
  }

  /** Links with the same `href`s, one by one, stop the pass at the same place. */
  lemma {:induction false} SameHrefsSameStop(a: seq<Link>, b: seq<Link>)
    requires |a| == |b|
    requires forall i :: 0 <= i < |a| ==> a[i].href == b[i].href
    ensures FirstMissingHref(a) == FirstMissingHref(b)
  {
    if a != [] && a[0].href.Some? {
      SameHrefsSameStop(a[1..], b[1..]);
    }
  }

  /** The pass keeps every `href`, so it stops at the same link the next time. */
  lemma MarkLinksKeepsStop(links: seq<Link>, page: string)
    ensures FirstMissingHref(MarkLinks(links, page)) == FirstMissingHref(links)
  {
    var marked := MarkLinks(links, page);
    forall i | 0 <= i < |links| ensures marked[i].href == links[i].href {
    }
    SameHrefsSameStop(marked, links);
  }

  /** Marking a link that is already marked for `page` changes nothing. */
  lemma MarkIdempotent(link: Link, page: string)
    requires link.href.Some?
    ensures Mark(Mark(link, page), page) == Mark(link, page)
  {
    var on := LastSegment(link.href.value) == page;
    WithActiveIdempotent(link.classes, on);
  }

  lemma WithActiveIdempotent(classes: set<string>, on: bool)
    ensures WithActive(WithActive(classes, on), on) == WithActive(classes, on)
  {
    var once := WithActive(classes, on);
    if on {
      assert once - {Active} + {Active} == once;
    } else {
      assert once - {Active} == once;
    }
  }

  /** A second pass for the same page gives the same marking as the first. */
  lemma MarkLinksIdempotent(links: seq<Link>, page: string)
    ensures MarkLinks(MarkLinks(links, page), page) == MarkLinks(links, page)
  {
    var once := MarkLinks(links, page);
    var twice := MarkLinks(once, page);
    var stop := FirstMissingHref(links);
    MarkLinksKeepsStop(links, page);
    forall i | 0 <= i < |links|
      ensures twice[i] == once[i]
    {
      if i < stop {
        MarkIdempotent(links[i], page);
      }
    }
  }
}

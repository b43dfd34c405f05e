/**
 * `getPostToLJDH` (index.ts:5-33) without the browser: the listing elements
 * the page driver found on the `/newest` page go in, the first `numStories`
 * of them are kept (`slice`), each kept element becomes a `Story`, and the
 * batch succeeds only if every kept element does (`Promise.all`).
 */
module Listing {
  import opened Wrappers
  import Byline
  import CommentCount

  /** The `.link a` anchor of a listing: its text and its `href`. */
  datatype Anchor = Anchor(text: string, href: string)

  /**
   * One `#inside ol li` element as the page driver sees it. A sub-element read
   * with `$eval` may be missing (`None`); `.tags a` is read with `$$eval`, which
   * yields an empty list instead of failing.
   */
  datatype ListingElement = ListingElement(
    link: Option<Anchor>,          // `.link a`
    score: Option<string>,         // text of `.score`
    tags: seq<string>,             // texts of `.tags a`, in page order
    byline: Option<string>,        // text of `.byline`
    commentsLink: Option<string>)  // text of `.comments_label a`

  /** The record `getPostToLJDH` returns per listing (index.ts:3). */
  datatype Story = Story(
    title: string,
    url: string,
    score: string,
    tags: seq<string>,
    comments: nat,
    username: string)

  /** The sub-elements read with `$eval`, which rejects when its selector matches nothing. */
  datatype Part = LinkPart | ScorePart | BylinePart | CommentsPart

  /** The batch was rejected: the kept element at `index` lacks the sub-element `part`. */
  datatype Rejection = MissingPart(index: nat, part: Part)

  /** Position of each read in the extraction body: `.link a` twice, then `.score`, `.byline`, `.comments_label a`. */
  function Rank(p: Part): nat {
    match p
    case LinkPart => 0
    case ScorePart => 1
    case BylinePart => 2
    case CommentsPart => 3
  }

  /** The element has the sub-element `p`. */
  predicate Has(el: ListingElement, p: Part) {
    match p
    case LinkPart => el.link.Some?
    case ScorePart => el.score.Some?
    case BylinePart => el.byline.Some?
    case CommentsPart => el.commentsLink.Some?
  }

  /** Every `$eval` of the extraction body finds its sub-element. */
  predicate Complete(el: ListingElement) {
    Has(el, LinkPart) && Has(el, ScorePart) && Has(el, BylinePart) && Has(el, CommentsPart)
  }

  /**
   * The story of one listing element (index.ts:16-29). Title, url, score and
   * tags are the raw texts; the username and the comment count are parsed.
   * The reads are awaited one after another, so the first missing sub-element
   * is the one that rejects.
   */
  function ExtractStory(el: ListingElement): (r: Result<Story, Part>)
    ensures r.Success? <==> Complete(el)
    ensures r.Failure? ==> !Has(el, r.error)
    ensures r.Failure? ==> forall p :: Rank(p) < Rank(r.error) ==> Has(el, p)
    ensures r.Success? ==> r.value.title == el.link.value.text && r.value.url == el.link.value.href
    ensures r.Success? ==> r.value.score == el.score.value && r.value.tags == el.tags
    ensures r.Success? ==> r.value.username == Byline.Username(el.byline.value)
    ensures r.Success? ==> r.value.comments == CommentCount.Count(el.commentsLink.value)
  {
    if el.link.None? then Failure(LinkPart)
    else if el.score.None? then Failure(ScorePart)
    else if el.byline.None? then Failure(BylinePart)
    else if el.commentsLink.None? then Failure(CommentsPart)
    else
      Success(Story(
        el.link.value.text,
        el.link.value.href,
        el.score.value,
        el.tags,
        CommentCount.Count(el.commentsLink.value),
        Byline.Username(el.byline.value)))
  }

  function Min(a: nat, b: nat): nat {
    if a <= b then a else b
  }

  /** `slice(0, n)` for a non-negative `n`: the first `n` elements, or all of them when there are fewer. */
  function Keep(els: seq<ListingElement>, n: nat): (kept: seq<ListingElement>)
    ensures |kept| == Min(n, |els|)
    ensures forall i :: 0 <= i < |kept| ==> kept[i] == els[i]
  {
    if n < |els| then els[..n] else els
  }

  /**
   * `Promise.all` read as an ordered map: every result in input order when each
   * application succeeds, otherwise the position and error of the first failure.
   */
  function AllOrNothing<A, B, E>(xs: seq<A>, f: A -> Result<B, E>): (r: Result<seq<B>, (nat, E)>)
    ensures r.Success? <==> forall i :: 0 <= i < |xs| ==> f(xs[i]).Success?
    ensures r.Success? ==> |r.value| == |xs|
    ensures r.Success? ==> forall i :: 0 <= i < |xs| ==> f(xs[i]) == Success(r.value[i])
    ensures r.Failure? ==> r.error.0 < |xs| && f(xs[r.error.0]) == Failure(r.error.1)
    ensures r.Failure? ==> forall i :: 0 <= i < r.error.0 ==> f(xs[i]).Success?
  {
    if |xs| == 0 then Success([])
    else
      match f(xs[0])
      case Failure(e) => Failure((0, e))
      case Success(y) =>
        match AllOrNothing(xs[1..], f)
        case Failure((k, e)) => Failure((k + 1, e))
        case Success(ys) => Success([y] + ys)
  }

  /**
   * The stories of the kept elements in element order when every element is
   * complete; otherwise a rejection naming the first incomplete element and its
   * first missing sub-element.
   */
  function ExtractAll(kept: seq<ListingElement>): (r: Result<seq<Story>, Rejection>)
    ensures r.Success? <==> forall i :: 0 <= i < |kept| ==> Complete(kept[i])
    ensures r.Success? ==> |r.value| == |kept|
    ensures r.Success? ==> forall i :: 0 <= i < |kept| ==> ExtractStory(kept[i]) == Success(r.value[i])
    ensures r.Failure? ==> r.error.index < |kept|
    ensures r.Failure? ==> ExtractStory(kept[r.error.index]) == Failure(r.error.part)
    ensures r.Failure? ==> forall i :: 0 <= i < r.error.index ==> Complete(kept[i])
  {
    match AllOrNothing(kept, ExtractStory)
    case Success(stories) => Success(stories)
    case Failure((k, p)) => Failure(MissingPart(k, p))
  }

  /** `getPostToLJDH(numStories)` given the listing elements of the `/newest` page. */
  function GetPostToLJDH(page: seq<ListingElement>, numStories: nat): (r: Result<seq<Story>, Rejection>)
    ensures r.Success? <==> forall i :: 0 <= i < |page| && i < numStories ==> Complete(page[i])
    ensures r.Success? ==> |r.value| == Min(numStories, |page|)
    ensures r.Success? ==> forall i :: 0 <= i < |r.value| ==> ExtractStory(page[i]) == Success(r.value[i])
    ensures r.Failure? ==> r.error.index < Min(numStories, |page|)
    ensures r.Failure? ==> !Complete(page[r.error.index]) && !Has(page[r.error.index], r.error.part)
  {
    ExtractAll(Keep(page, numStories))
  }
}

/** Properties of the whole operation that relate several calls. */
module ListingFacts {
  import opened Wrappers
  import opened Listing

  /** Elements after the first `numStories` are never read: appending to the page changes nothing. */
  lemma IgnoresBeyondLimit(page: seq<ListingElement>, extra: seq<ListingElement>, numStories: nat)
    requires numStories <= |page|
    ensures GetPostToLJDH(page + extra, numStories) == GetPostToLJDH(page, numStories)
  {
    assert Keep(page + extra, numStories) == Keep(page, numStories);
  }

  /** When the first `n` elements are complete, asking for `m <= n` stories returns a prefix of the longer answer, in the same order. */
  lemma SmallerLimitIsPrefix(page: seq<ListingElement>, m: nat, n: nat)
    requires m <= n
    requires forall i :: 0 <= i < |page| && i < n ==> Complete(page[i])
    ensures GetPostToLJDH(page, n).Success?
    ensures GetPostToLJDH(page, m) == Success(GetPostToLJDH(page, n).value[..Min(m, |page|)])
  {
    var long := GetPostToLJDH(page, n).value;
    var short := GetPostToLJDH(page, m);
    assert short.Success?;
    assert short.value == long[..Min(m, |page|)];
  }

}

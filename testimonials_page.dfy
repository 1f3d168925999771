/**
 * The public testimonials page: the gallery of active testimonials and the
 * lightbox that steps through their images with wrap-around.
 */
module TestimonialsPage {
  import opened Common
  import opened TestimonialTable

  /** What the page fetches: the active rows by ascending display order. */
  function GalleryList(table: seq<Testimonial>): (r: seq<Testimonial>)
    ensures forall t :: t in r <==> t in table && t.isActive
    ensures multiset(r) == multiset(ActiveOnly(table))
    ensures forall t :: multiset(r)[t] == if t.isActive then multiset(table)[t] else 0
    ensures forall i, j :: 0 <= i < j < |r| ==> r[i].displayOrder <= r[j].displayOrder
  {
    ActiveKeepsMultiplicities(table);
    var r := ByDisplayOrder(ActiveOnly(table));
    assert forall t :: t in r <==> t in multiset(r);
    assert forall t :: t in ActiveOnly(table) <==> t in multiset(ActiveOnly(table));
    r
  }

  /** `findIndex(t => t.image_url === url)`: the first match, or -1. */
  function FindIndex(list: seq<Testimonial>, url: string): (r: int)
    ensures -1 <= r < |list|
    ensures r == -1 <==> forall i :: 0 <= i < |list| ==> list[i].imageUrl != url
    ensures r >= 0 ==> list[r].imageUrl == url && forall i :: 0 <= i < r ==> list[i].imageUrl != url
  {
    if list == [] then -1
    else if list[0].imageUrl == url then 0
    else
      var k := FindIndex(list[1..], url);
      assert forall i :: 1 <= i < |list| ==> list[i] == list[1..][i - 1];
      if k == -1 then -1 else k + 1
  }

  /** The previous position, wrapping from the first (or from "not found") to the last. */
  function PrevIndex(current: int, n: nat): (r: int)
    requires n > 0 && -1 <= current < n
    ensures 0 <= r < n
    ensures current > 0 ==> r == current - 1
    ensures current <= 0 ==> r == n - 1
  {
    if current > 0 then current - 1 else n - 1
  }

  /** The next position, wrapping from the last to the first; "not found" also goes to the first. */
  function NextIndex(current: int, n: nat): (r: int)
    requires n > 0 && -1 <= current < n
    ensures 0 <= r < n
    ensures current < n - 1 ==> r == current + 1
    ensures current == n - 1 ==> r == 0
  {
    if current < n - 1 then current + 1 else 0
  }

  lemma PrevUndoesNext(i: int, n: nat)
    requires 0 <= i < n
    ensures PrevIndex(NextIndex(i, n), n) == i
  {
  }

  lemma NextUndoesPrev(i: int, n: nat)
    requires 0 <= i < n
    ensures NextIndex(PrevIndex(i, n), n) == i
  {
  }

  datatype Direction = Prev | Next

  /**
   * The lightbox's new image after a click on an arrow. No image (null or
   * the empty string) means no lightbox and no change; on an empty list the
   * handler fails before it sets anything, so nothing changes either.
   */
  function NavigateTarget(list: seq<Testimonial>, selected: Option<string>, dir: Direction): (r: Option<string>)
    ensures selected.None? || !Truthy(selected.value) || list == [] ==> r == selected
    ensures selected.Some? && Truthy(selected.value) && list != [] ==>
      exists i :: 0 <= i < |list| && r == Some(list[i].imageUrl)
  {
    if selected.None? || !Truthy(selected.value) || list == [] then selected
    else
      var cur := FindIndex(list, selected.value);
      var target := if dir == Prev then PrevIndex(cur, |list|) else NextIndex(cur, |list|);
      Some(list[target].imageUrl)
  }

  /** From the first testimonial showing `list[k]`'s image, "next" and "previous" step by one and wrap at the ends. */
  lemma StepFromFoundImage(list: seq<Testimonial>, k: int)
    requires 0 <= k < |list| && Truthy(list[k].imageUrl)
    requires forall i :: 0 <= i < k ==> list[i].imageUrl != list[k].imageUrl
    ensures NavigateTarget(list, Some(list[k].imageUrl), Next) ==
      Some(list[if k < |list| - 1 then k + 1 else 0].imageUrl)
    ensures NavigateTarget(list, Some(list[k].imageUrl), Prev) ==
      Some(list[if k > 0 then k - 1 else |list| - 1].imageUrl)
  {
  }

  /** An image that is not in the list: "previous" shows the last one and "next" the first one. */
  lemma UnknownImageWrapsToEnds(list: seq<Testimonial>, url: string)
    requires list != [] && Truthy(url)
    requires forall i :: 0 <= i < |list| ==> list[i].imageUrl != url
    ensures NavigateTarget(list, Some(url), Prev) == Some(list[|list| - 1].imageUrl)
    ensures NavigateTarget(list, Some(url), Next) == Some(list[0].imageUrl)
  {
  }

  ghost predicate DistinctImages(list: seq<Testimonial>)
  {
    forall i, j :: 0 <= i < j < |list| ==> list[i].imageUrl != list[j].imageUrl
  }

  ghost predicate AllImagesPresent(list: seq<Testimonial>)
  {
    forall i :: 0 <= i < |list| ==> Truthy(list[i].imageUrl)
  }

  lemma FindIndexOfDistinct(list: seq<Testimonial>, j: int)
    requires DistinctImages(list) && 0 <= j < |list|
    ensures FindIndex(list, list[j].imageUrl) == j
  {
  }

  /** With distinct, non-empty image URLs, "next" then "previous" and "previous" then "next" come back to the same image. */
  lemma NavigationRoundTrip(list: seq<Testimonial>, i: int)
    requires DistinctImages(list) && AllImagesPresent(list) && 0 <= i < |list|
    ensures NavigateTarget(list, NavigateTarget(list, Some(list[i].imageUrl), Next), Prev) == Some(list[i].imageUrl)
    ensures NavigateTarget(list, NavigateTarget(list, Some(list[i].imageUrl), Prev), Next) == Some(list[i].imageUrl)
  {
    FindIndexOfDistinct(list, i);
    assert NavigateTarget(list, NavigateTarget(list, Some(list[i].imageUrl), Next), Prev) == Some(list[i].imageUrl) by {
      var nx := NextIndex(i, |list|);
      assert NavigateTarget(list, Some(list[i].imageUrl), Next) == Some(list[nx].imageUrl);
      FindIndexOfDistinct(list, nx);
      PrevUndoesNext(i, |list|);
    }
    assert NavigateTarget(list, NavigateTarget(list, Some(list[i].imageUrl), Prev), Next) == Some(list[i].imageUrl) by {
      var pv := PrevIndex(i, |list|);
      assert NavigateTarget(list, Some(list[i].imageUrl), Prev) == Some(list[pv].imageUrl);
      FindIndexOfDistinct(list, pv);
      NextUndoesPrev(i, |list|);
    }
  }

  /** A neighbour without an image stops the round trip: the lightbox closes on it and the arrows do nothing. */
  lemma EmptyImageBreaksRoundTrip()
    ensures var a := Testimonial("a", "A", "", "a.png", 1, true, None, "");
      var b := Testimonial("b", "B", "", "", 2, true, None, "");
      NavigateTarget([a, b], NavigateTarget([a, b], Some("a.png"), Next), Prev) == Some("")
  {
    var a := Testimonial("a", "A", "", "a.png", 1, true, None, "");
    var b := Testimonial("b", "B", "", "", 2, true, None, "");
    assert FindIndex([a, b], "a.png") == 0;
  }

  /** The page's state: the fetched testimonials and the image open in the lightbox. */
  class Gallery {
    var testimonials: seq<Testimonial>
    var selectedImage: Option<string>

    constructor (table: seq<Testimonial>)
      ensures testimonials == GalleryList(table) && selectedImage == None
    {
      testimonials := GalleryList(table);
      selectedImage := None;
    }

    /** A click on a card opens its image. */
    method Open(t: Testimonial)
      modifies this
      ensures testimonials == old(testimonials) && selectedImage == Some(t.imageUrl)
    {
      selectedImage := Some(t.imageUrl);
    }

    method Close()
      modifies this
      ensures testimonials == old(testimonials) && selectedImage == None
    {
      selectedImage := None;
    }

    method Navigate(dir: Direction)
      modifies this
      ensures testimonials == old(testimonials)
      ensures selectedImage == NavigateTarget(testimonials, old(selectedImage), dir)
      ensures selectedImage != old(selectedImage) ==>
        exists i :: 0 <= i < |testimonials| && selectedImage == Some(testimonials[i].imageUrl)
    {
      if selectedImage.None? || !Truthy(selectedImage.value) {
        return;
      }
      if testimonials == [] {
        return;
      }
      var current := FindIndex(testimonials, selectedImage.value);
      var newIndex;
      if dir == Prev {
        newIndex := if current > 0 then current - 1 else |testimonials| - 1;
      } else {
        newIndex := if current < |testimonials| - 1 then current + 1 else 0;
      }
      selectedImage := Some(testimonials[newIndex].imageUrl);
    }
  }
}

/**
 * Points the "details" link of each product card at that product's page. A
 * card is reduced to the `href` of its `.btn-link` anchor, None when the card
 * has no such anchor.
 */
module ProductLinks {
  import opened Wrappers

  /** Product pages in card order. */
  const ProductPages: seq<string> := ["travel.html", "fire.html", "car.html", "marine.html"]

  /** The page of the card at `index`, None past the end of the table. */
  function PageFor(index: nat): (r: Option<string>)
    ensures r.Some? <==> index < |ProductPages|
    ensures r.Some? ==> r.value != [] && r.value == ProductPages[index]
  {
    if index < |ProductPages| then Some(ProductPages[index]) else None
  }

  /** The link of the card at `index` once updated: a page-table entry, if both exist. */
  function UpdatedLink(link: Option<string>, index: nat): (r: Option<string>)
    ensures r.None? <==> link.None?
    ensures link.Some? && index < |ProductPages| ==> r == Some(ProductPages[index])
    ensures index >= |ProductPages| ==> r == link
  {
    if link.Some? && PageFor(index).Some? then PageFor(index) else link
  }

  /** Distinct cards with a link get distinct pages. */
  lemma PagesDistinct(i: nat, j: nat)
    requires i < |ProductPages| && j < |ProductPages| && i != j
    ensures PageFor(i) != PageFor(j)
  {
  }

  /** Every card's link set to its page, for the first four cards that have a link. */
  method UpdateLinks(links: array<Option<string>>)
    modifies links
    ensures forall k :: 0 <= k < links.Length ==> links[k] == UpdatedLink(old(links[k]), k)
  {
    var k := 0;
    while k < links.Length
      invariant 0 <= k <= links.Length
      invariant forall j :: 0 <= j < k ==> links[j] == UpdatedLink(old(links[j]), j)
      invariant forall j :: k <= j < links.Length ==> links[j] == old(links[j])
    {
      var page := PageFor(k);
      if links[k].Some? && page.Some? {
        links[k] := page;
      }
      k := k + 1;
    }
  }

  /** Running the update twice leaves the links as one run does. */
  lemma UpdateIdempotent(link: Option<string>, index: nat)
    ensures UpdatedLink(UpdatedLink(link, index), index) == UpdatedLink(link, index)
  {
  }
}

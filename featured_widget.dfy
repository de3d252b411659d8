/** The source version of the featured-session widget: it reads every page of the session
    source into one list, then appends one card per featured id that has a session in it. */
module FeaturedWidget {
  import opened Common
  import opened SessionCards

  /** The `for await` loop that pushes every page's sessions. */
  method CollectAllPages(pages: seq<seq<Session>>) returns (sessions: seq<Session>)
    ensures sessions == Flatten(pages)
  {
    sessions := [];
    var k := 0;
    while k < |pages|
      invariant k <= |pages|
      invariant sessions == Flatten(pages[..k])
    {
      FlattenStep(pages, k);
      sessions := sessions + pages[k];
      k := k + 1;
    }
    assert pages[..k] == pages;
  }

  /** The flattened source lists the sessions of page p, in their order, after those of the
      pages before p. */
  lemma FlattenKeepsPages(pages: seq<seq<Session>>, p: nat)
    requires p < |pages|
    ensures Flatten(pages) == Flatten(pages[..p]) + pages[p] + Flatten(pages[p + 1..])
  {
    assert pages == pages[..p + 1] + pages[p + 1..];
    FlattenConcat(pages[..p + 1], pages[p + 1..]);
    FlattenStep(pages, p);
  }

  class Widget {
    const configuration: Config
    var images: seq<Url>
    var sessionDetails: seq<Session>

    constructor (configuration: Config, stockImages: seq<Url>)
      ensures this.configuration == configuration && images == stockImages && sessionDetails == []
    {
      this.configuration := configuration;
      images := stockImages;
      sessionDetails := [];
    }

    /** `connectedCallback`, given the pages the session generator yields. */
    method ConnectedCallback(pages: seq<seq<Session>>) returns (children: seq<Element>)
      modifies this`images, this`sessionDetails
      ensures sessionDetails == Flatten(pages)
      ensures children == Container(CardsFor(MatchedSessions(FeaturedIds(configuration), Flatten(pages)), old(images)))
      ensures images == AfterPops(old(images), |children| - 1)
    {
      var featuredSessionIds := FeaturedIds(configuration);
      var sessions := CollectAllPages(pages);
      sessionDetails := sessions;
      var cards;
      cards, images := AssembleCards(featuredSessionIds, sessions, images);
      children := Container(cards);
    }
  }
}

/** The built version of the featured-session widget: the host hands it a dictionary from
    session id to session; it looks every featured id up and appends one card per id, an
    empty one when the id is not in the dictionary. Its card constructor destructures the
    session's `location` without a guard, so a session without one throws, which ends the
    loop and leaves the container unattached. */
module FeaturedBuildWidget {
  import opened Common

  /** `featuredSessionIds.map(sessionId => sessionDetails[sessionId])`: one entry per id,
      `undefined` for an id the dictionary does not have. */
  function LookUp(sessionDetails: map<SessionId, Session>, ids: seq<SessionId>): (r: seq<Option<Session>>)
    ensures |r| == |ids|
    ensures forall i :: 0 <= i < |ids| ==>
              r[i] == if ids[i] in sessionDetails then Some(sessionDetails[ids[i]]) else None
  {
    if ids == [] then []
    else
      var init := ids[..|ids| - 1];
      var id := ids[|ids| - 1];
      LookUp(sessionDetails, init) + [if id in sessionDetails then Some(sessionDetails[id]) else None]
  }

  /** The card the card constructor builds for an entry: empty when there is no session. */
  function BlockFor(entry: Option<Session>, image: Option<Url>): Card {
    match entry
    case Some(s) => SessionCard(s, image)
    case None => EmptyCard
  }

  /** The card constructor throws on a session without a `location`, since it reads
      `location.name` unguarded; an `undefined` entry returns early and does not throw. */
  predicate CardThrows(entry: Option<Session>) {
    entry.Some? && entry.value.location.None?
  }

  /** The position of the first entry whose card throws, or the number of entries. */
  function FirstThrow(entries: seq<Option<Session>>): (n: nat)
    ensures n <= |entries|
    ensures forall k :: 0 <= k < n ==> !CardThrows(entries[k])
    ensures n < |entries| ==> CardThrows(entries[n])
  {
    if entries == [] then 0
    else if CardThrows(entries[0]) then 0
    else
      var m := FirstThrow(entries[1..]);
      assert forall k :: 1 <= k < m + 1 ==> entries[k] == entries[1..][k - 1];
      m + 1
  }

  /** Ids missing from the dictionary never throw: only a session without a `location`
      does. So when every session the host supplies has a location, no card throws. */
  lemma LocatedSessionsNeverThrow(sessionDetails: map<SessionId, Session>, ids: seq<SessionId>)
    requires forall id :: id in sessionDetails ==> sessionDetails[id].location.Some?
    ensures FirstThrow(LookUp(sessionDetails, ids)) == |ids|
  {
    var entries := LookUp(sessionDetails, ids);
    assert forall k :: 0 <= k < |ids| ==> !CardThrows(entries[k]);
  }

  /** The `forEach` over the entries. Each entry first takes an image by `pop()`, since the
      argument is evaluated before the constructor runs; then its card is built, or the
      constructor throws and the loop ends there (`ok` false). Up to the first throwing
      entry there is one card per entry, an empty one for an `undefined` entry. */
  method BuildCards(entries: seq<Option<Session>>, images: seq<Url>)
    returns (cards: seq<Card>, left: seq<Url>, ok: bool)
    ensures ok <==> forall k :: 0 <= k < |entries| ==> !CardThrows(entries[k])
    ensures |cards| == FirstThrow(entries)
    ensures forall k :: 0 <= k < |cards| ==> cards[k] == BlockFor(entries[k], NthPop(images, k))
    ensures left == AfterPops(images, if ok then |entries| else |cards| + 1)
  {
    cards := [];
    left := images;
    var k := 0;
    while k < |entries|
      invariant k <= |entries| && |cards| == k
      invariant forall j :: 0 <= j < k ==> !CardThrows(entries[j])
      invariant forall j :: 0 <= j < k ==> cards[j] == BlockFor(entries[j], NthPop(images, j))
      invariant left == AfterPops(images, k)
    {
      PopStep(images, k);
      var popped := Pop(left);
      left := popped.1;
      if CardThrows(entries[k]) {
        ok := false;
        return;
      }
      cards := cards + [BlockFor(entries[k], popped.0)];
      k := k + 1;
    }
    ok := true;
  }

  class Widget {
    const configuration: Config
    var images: seq<Url>

    constructor (configuration: Config, stockImages: seq<Url>)
      ensures this.configuration == configuration && images == stockImages
    {
      this.configuration := configuration;
      images := stockImages;
    }

    /** `connectedCallback`, given what `getSessionDetails` answers. `attached` is the
        container appended to the shadow root, or `None` when a card constructor threw
        and the container was never appended; the images popped until then stay popped. */
    method ConnectedCallback(sessionDetails: map<SessionId, Session>) returns (attached: Option<seq<Element>>)
      modifies this`images
      ensures var entries := LookUp(sessionDetails, FeaturedIds(configuration));
              attached.Some? <==> forall k :: 0 <= k < |entries| ==> !CardThrows(entries[k])
      ensures attached.Some? ==>
                |attached.value| == |FeaturedIds(configuration)| + 1 && attached.value[0] == Placeholder
      ensures attached.Some? ==> forall k :: 0 <= k < |FeaturedIds(configuration)| ==>
                attached.value[k + 1] == CardElement(BlockFor(LookUp(sessionDetails, FeaturedIds(configuration))[k], NthPop(old(images), k)))
      ensures images == AfterPops(old(images),
                if attached.Some? then |FeaturedIds(configuration)|
                else FirstThrow(LookUp(sessionDetails, FeaturedIds(configuration))) + 1)
    {
      var featuredSessionIds := FeaturedIds(configuration);
      var featuredSessions := LookUp(sessionDetails, featuredSessionIds);
      var cards, ok;
      cards, images, ok := BuildCards(featuredSessions, images);
      if ok {
        ContainerElements(cards);
        attached := Some(Container(cards));
      } else {
        attached := None;
      }
    }
  }
}

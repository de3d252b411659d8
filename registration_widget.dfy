/** The registration widget: it reads the paged session source page by page, keeps every
    session whose id is featured, and stops requesting pages after the first page at which
    it holds as many sessions as there are featured ids; then it appends one card per
    featured id that has a collected session. */
module RegistrationWidget {
  import opened Common
  import opened SessionCards

  /** The test `featuredSessionIds.find(featuredSessionId => session.id === featuredSessionId)`.
      `find` returns the matching id itself, which JavaScript then reads as a condition, so a
      session whose id is the empty string is never kept. */
  predicate IsWanted(featuredIds: seq<SessionId>, id: SessionId) {
    id in featuredIds && id != ""
  }

  /** The featured sessions of `xs`, in their order. */
  function Wanted(featuredIds: seq<SessionId>, xs: seq<Session>): (r: seq<Session>)
    ensures |r| <= |xs|
  {
    if xs == [] then []
    else
      var last := xs[|xs| - 1];
      Wanted(featuredIds, xs[..|xs| - 1]) + if IsWanted(featuredIds, last.id) then [last] else []
  }

  /** A session is kept exactly when it is in the list and featured. */
  lemma {:induction false} WantedMembers(featuredIds: seq<SessionId>, xs: seq<Session>)
    ensures forall s :: s in Wanted(featuredIds, xs) <==> s in xs && IsWanted(featuredIds, s.id)
  {
    if xs != [] {
      var init := xs[..|xs| - 1];
      WantedMembers(featuredIds, init);
      assert xs == init + [xs[|xs| - 1]];
    }
  }

  /** Filtering a concatenation filters each part; so the kept sessions stay in page order. */
  lemma {:induction false} WantedConcat(featuredIds: seq<SessionId>, a: seq<Session>, b: seq<Session>)
    ensures Wanted(featuredIds, a + b) == Wanted(featuredIds, a) + Wanted(featuredIds, b)
    decreases |b|
  {
    if b == [] {
      assert a + b == a;
    } else {
      var b' := b[..|b| - 1];
      assert (a + b)[..|a + b| - 1] == a + b';
      WantedConcat(featuredIds, a, b');
    }
  }

  /** Reading one more session keeps it exactly when it is featured. */
  lemma WantedSnoc(featuredIds: seq<SessionId>, xs: seq<Session>, x: Session)
    ensures Wanted(featuredIds, xs + [x]) == Wanted(featuredIds, xs) + if IsWanted(featuredIds, x.id) then [x] else []
  {
    assert (xs + [x])[..|xs + [x]| - 1] == xs;
  }

  /** An id has a kept session exactly when it has a session in the list and is featured. */
  lemma {:induction false} WantedIds(featuredIds: seq<SessionId>, xs: seq<Session>)
    ensures forall id :: id in Ids(Wanted(featuredIds, xs)) <==> id in Ids(xs) && IsWanted(featuredIds, id)
  {
    if xs != [] {
      var init := xs[..|xs| - 1];
      var last := xs[|xs| - 1];
      WantedIds(featuredIds, init);
      assert xs == init + [last];
      IdsConcat(init, [last]);
      IdsConcat(Wanted(featuredIds, init), if IsWanted(featuredIds, last.id) then [last] else []);
    }
  }

  /** Keeping sessions of a list with distinct ids gives a list with distinct ids. */
  lemma {:induction false} WantedDistinctIds(featuredIds: seq<SessionId>, xs: seq<Session>)
    requires Distinct(Ids(xs))
    ensures Distinct(Ids(Wanted(featuredIds, xs)))
  {
    if xs != [] {
      var init := xs[..|xs| - 1];
      var last := xs[|xs| - 1];
      assert xs == init + [last];
      IdsConcat(init, [last]);
      DistinctSnocParts(Ids(init), last.id);
      WantedDistinctIds(featuredIds, init);
      if IsWanted(featuredIds, last.id) {
        var w := Wanted(featuredIds, init);
        WantedIds(featuredIds, init);
        IdsConcat(w, [last]);
        DistinctSnoc(Ids(w), last.id);
      }
    }
  }

  /** The ids kept are featured ids. */
  lemma WantedIdsFeatured(featuredIds: seq<SessionId>, xs: seq<Session>)
    ensures Elements(Ids(Wanted(featuredIds, xs))) <= Elements(featuredIds)
  {
    WantedIds(featuredIds, xs);
  }

  /** The sessions collected after the first k pages. */
  function Collected(featuredIds: seq<SessionId>, pages: seq<seq<Session>>, k: nat): seq<Session>
    requires k <= |pages|
  {
    Wanted(featuredIds, Flatten(pages[..k]))
  }

  /** The stop test after the k-th page: as many collected sessions as featured ids. */
  predicate StopsAfter(featuredIds: seq<SessionId>, pages: seq<seq<Session>>, k: nat)
    requires k <= |pages|
  {
    |Collected(featuredIds, pages, k)| == |featuredIds|
  }

  /** `consumed` is the number of pages the loop reads: every page when no page passes the
      stop test, otherwise the first page that does; the test runs only after whole
      pages, so a non-empty source always has its first page read. */
  predicate IsScanLength(featuredIds: seq<SessionId>, pages: seq<seq<Session>>, consumed: nat) {
    && consumed <= |pages|
    && (|pages| > 0 ==> consumed > 0)
    && (consumed == |pages| || StopsAfter(featuredIds, pages, consumed))
    && (forall j :: 1 <= j < consumed ==> !StopsAfter(featuredIds, pages, j))
  }

  /** The scan length is determined by the featured ids and the source. */
  lemma ScanLengthUnique(featuredIds: seq<SessionId>, pages: seq<seq<Session>>, c1: nat, c2: nat)
    requires IsScanLength(featuredIds, pages, c1) && IsScanLength(featuredIds, pages, c2)
    ensures c1 == c2
  {
  }

  /** The `for await` loop over the session source, with its `break`. */
  method ScanPages(featuredIds: seq<SessionId>, pages: seq<seq<Session>>)
    returns (sessions: seq<Session>, consumed: nat)
    ensures IsScanLength(featuredIds, pages, consumed)
    ensures sessions == Collected(featuredIds, pages, consumed)
  {
    sessions := [];
    consumed := 0;
    while consumed < |pages|
      invariant consumed <= |pages|
      invariant sessions == Collected(featuredIds, pages, consumed)
      invariant forall j :: 1 <= j <= consumed ==> !StopsAfter(featuredIds, pages, j)
    {
      sessions := KeepFeatured(featuredIds, pages[consumed], sessions);
      FlattenStep(pages, consumed);
      WantedConcat(featuredIds, Flatten(pages[..consumed]), pages[consumed]);
      consumed := consumed + 1;
      if |featuredIds| == |sessions| {
        assert StopsAfter(featuredIds, pages, consumed);
        return;
      }
    }
  }

  /** The inner loop over one page's sessions, pushing each featured one. */
  method KeepFeatured(featuredIds: seq<SessionId>, page: seq<Session>, sessions: seq<Session>)
    returns (r: seq<Session>)
    ensures r == sessions + Wanted(featuredIds, page)
  {
    r := sessions;
    var i := 0;
    while i < |page|
      invariant i <= |page|
      invariant r == sessions + Wanted(featuredIds, page[..i])
    {
      assert page[..i + 1] == page[..i] + [page[i]];
      WantedSnoc(featuredIds, page[..i], page[i]);
      if IsWanted(featuredIds, page[i].id) {
        r := r + [page[i]];
      }
      i := i + 1;
    }
    assert page[..i] == page;
  }

  /** When the loop stops early and the source's session ids are distinct, every featured
      id has been found: the count can only reach the number of featured ids when each of
      them has a collected session. */
  lemma StopMeansAllFound(featuredIds: seq<SessionId>, xs: seq<Session>)
    requires Distinct(Ids(xs))
    requires |Wanted(featuredIds, xs)| == |featuredIds|
    ensures forall id :: id in featuredIds ==> id in Ids(Wanted(featuredIds, xs))
  {
    var w := Wanted(featuredIds, xs);
    WantedDistinctIds(featuredIds, xs);
    WantedIdsFeatured(featuredIds, xs);
    ElementsCard(Ids(w));
    ElementsCard(featuredIds);
    SubsetCard(Elements(Ids(w)), Elements(featuredIds));
    SubsetSameCard(Elements(Ids(w)), Elements(featuredIds));
    assert forall id :: id in featuredIds ==> id in Elements(featuredIds);
  }

  /** A source with distinct session ids that has passed the stop test contains every
      featured id. */
  lemma StopMeansAllSeen(featuredIds: seq<SessionId>, xs: seq<Session>)
    requires Distinct(Ids(xs))
    requires |Wanted(featuredIds, xs)| == |featuredIds|
    ensures forall id :: id in featuredIds ==> id in Ids(xs)
  {
    StopMeansAllFound(featuredIds, xs);
    WantedIds(featuredIds, xs);
  }

  /** Once every one of distinct, non-empty featured ids is in a source with distinct
      session ids, the source passes the stop test. */
  lemma AllSeenMeansStop(featuredIds: seq<SessionId>, xs: seq<Session>)
    requires Distinct(Ids(xs)) && Distinct(featuredIds) && "" !in featuredIds
    requires forall id :: id in featuredIds ==> id in Ids(xs)
    ensures |Wanted(featuredIds, xs)| == |featuredIds|
  {
    var w := Wanted(featuredIds, xs);
    WantedIds(featuredIds, xs);
    WantedDistinctIds(featuredIds, xs);
    assert Elements(Ids(w)) == Elements(featuredIds);
    ElementsCard(Ids(w));
    ElementsCard(featuredIds);
  }

  /** For distinct, non-empty featured ids and a source with distinct session ids, the stop
      test passes exactly when every featured id has been seen. */
  lemma StopsIffAllSeen(featuredIds: seq<SessionId>, xs: seq<Session>)
    requires Distinct(Ids(xs)) && Distinct(featuredIds) && "" !in featuredIds
    ensures |Wanted(featuredIds, xs)| == |featuredIds| <==> forall id :: id in featuredIds ==> id in Ids(xs)
  {
    if |Wanted(featuredIds, xs)| == |featuredIds| {
      StopMeansAllSeen(featuredIds, xs);
    }
    if forall id :: id in featuredIds ==> id in Ids(xs) {
      AllSeenMeansStop(featuredIds, xs);
    }
  }

  /** The first k pages of a source with distinct session ids have distinct session ids. */
  lemma PrefixDistinctIds(pages: seq<seq<Session>>, k: nat)
    requires k <= |pages| && Distinct(Ids(Flatten(pages)))
    ensures Distinct(Ids(Flatten(pages[..k])))
  {
    PrefixIds(pages, k);
    DistinctPrefix(Ids(Flatten(pages)), |Flatten(pages[..k])|);
  }

  /** The ids of the first k pages are a prefix of the ids of the whole source. */
  lemma PrefixIds(pages: seq<seq<Session>>, k: nat)
    requires k <= |pages|
    ensures |Flatten(pages[..k])| <= |Flatten(pages)|
    ensures Ids(Flatten(pages[..k])) == Ids(Flatten(pages))[..|Flatten(pages[..k])|]
  {
    assert pages == pages[..k] + pages[k..];
    FlattenConcat(pages[..k], pages[k..]);
    IdsConcat(Flatten(pages[..k]), Flatten(pages[k..]));
  }

  /** For distinct, non-empty featured ids and a source with distinct session ids, the loop
      reads exactly up to the first page by which every featured id has been seen (or the
      whole source): each page it reads is needed, and no page after that one is read. */
  lemma ScanStopsWhenAllSeen(featuredIds: seq<SessionId>, pages: seq<seq<Session>>, consumed: nat, k: nat)
    requires IsScanLength(featuredIds, pages, consumed)
    requires Distinct(Ids(Flatten(pages))) && Distinct(featuredIds) && "" !in featuredIds
    requires 1 <= k <= |pages| && forall id :: id in featuredIds ==> id in Ids(Flatten(pages[..k]))
    ensures consumed <= k
    ensures forall id :: id in featuredIds ==> id in Ids(Flatten(pages[..consumed]))
  {
    PrefixDistinctIds(pages, k);
    AllSeenMeansStop(featuredIds, Flatten(pages[..k]));
    assert StopsAfter(featuredIds, pages, k);
    assert consumed <= k;
    if consumed < |pages| {
      assert StopsAfter(featuredIds, pages, consumed);
      PrefixDistinctIds(pages, consumed);
      StopMeansAllSeen(featuredIds, Flatten(pages[..consumed]));
    } else {
      assert consumed == k;
    }
  }

  lemma {:induction false} NothingWanted(xs: seq<Session>)
    ensures Wanted([], xs) == []
  {
    if xs != [] {
      NothingWanted(xs[..|xs| - 1]);
    }
  }

  /** With no featured ids the loop still reads the first page, if there is one, and no
      other. */
  lemma EmptySelectionReadsOnePage(pages: seq<seq<Session>>, consumed: nat)
    requires IsScanLength([], pages, consumed)
    ensures consumed == if pages == [] then 0 else 1
  {
    if pages != [] {
      NothingWanted(Flatten(pages[..1]));
      assert StopsAfter([], pages, 1);
    }
  }

  /** Sessions read after a prefix with distinct ids that passes the stop test change no
      card. */
  lemma StoppedPrefixSameCards(featuredIds: seq<SessionId>, front: seq<Session>, back: seq<Session>)
    requires Distinct(Ids(front)) && |Wanted(featuredIds, front)| == |featuredIds|
    ensures MatchedSessions(featuredIds, Wanted(featuredIds, front)) ==
            MatchedSessions(featuredIds, Wanted(featuredIds, front + back))
  {
    StopMeansAllFound(featuredIds, front);
    WantedConcat(featuredIds, front, back);
    MatchedSessionsPrefix(featuredIds, Wanted(featuredIds, front), Wanted(featuredIds, back));
  }

  /** With distinct session ids, a repeated featured id keeps the count below the number of
      featured ids: each collected session has its own featured id. */
  lemma DuplicateFeaturedNeverStops(featuredIds: seq<SessionId>, xs: seq<Session>)
    requires Distinct(Ids(xs)) && !Distinct(featuredIds)
    ensures |Wanted(featuredIds, xs)| < |featuredIds|
  {
    var w := Wanted(featuredIds, xs);
    WantedDistinctIds(featuredIds, xs);
    ElementsCard(Ids(w));
    WantedIdsFeatured(featuredIds, xs);
    SubsetCard(Elements(Ids(w)), Elements(featuredIds));
    ElementsCardStrict(featuredIds);
  }

  /** With distinct session ids, a featured id without a session keeps the count below the
      number of featured ids. */
  lemma MissingFeaturedNeverStops(featuredIds: seq<SessionId>, xs: seq<Session>, id: SessionId)
    requires Distinct(Ids(xs)) && id in featuredIds && id !in Ids(xs)
    ensures |Wanted(featuredIds, xs)| < |featuredIds|
  {
    var w := Wanted(featuredIds, xs);
    WantedDistinctIds(featuredIds, xs);
    ElementsCard(Ids(w));
    ElementsCard(featuredIds);
    WantedIds(featuredIds, xs);
    WantedIdsFeatured(featuredIds, xs);
    assert Elements(Ids(w)) <= Elements(featuredIds) - {id};
    SubsetCard(Elements(Ids(w)), Elements(featuredIds) - {id});
  }

  /** With distinct session ids, a repeated featured id makes the loop read the whole
      source: the stop test never passes. */
  lemma DuplicateFeaturedReadsAll(featuredIds: seq<SessionId>, pages: seq<seq<Session>>, consumed: nat)
    requires IsScanLength(featuredIds, pages, consumed)
    requires Distinct(Ids(Flatten(pages))) && !Distinct(featuredIds)
    ensures consumed == |pages|
  {
    PrefixDistinctIds(pages, consumed);
    DuplicateFeaturedNeverStops(featuredIds, Flatten(pages[..consumed]));
  }

  /** With distinct session ids, a featured id that no page holds makes the loop read the
      whole source. */
  lemma MissingFeaturedReadsAll(featuredIds: seq<SessionId>, pages: seq<seq<Session>>, consumed: nat, id: SessionId)
    requires IsScanLength(featuredIds, pages, consumed)
    requires Distinct(Ids(Flatten(pages))) && id in featuredIds && id !in Ids(Flatten(pages))
    ensures consumed == |pages|
  {
    PrefixLacksId(pages, consumed, id);
    PrefixDistinctIds(pages, consumed);
    MissingFeaturedNeverStops(featuredIds, Flatten(pages[..consumed]), id);
  }

  /** An id that no page holds is not in the first k pages either. */
  lemma PrefixLacksId(pages: seq<seq<Session>>, k: nat, id: SessionId)
    requires k <= |pages| && id !in Ids(Flatten(pages))
    ensures id !in Ids(Flatten(pages[..k]))
  {
    PrefixIds(pages, k);
    NotInPrefix(Ids(Flatten(pages)), |Flatten(pages[..k])|, id);
  }

  /** Stopping early gives the same cards as reading the whole source, provided the
      source's session ids are distinct. A repeated or missing featured id prevents an early
      stop altogether (`DuplicateFeaturedReadsAll`, `MissingFeaturedReadsAll`). */
  lemma EarlyStopSameCards(featuredIds: seq<SessionId>, pages: seq<seq<Session>>, consumed: nat)
    requires IsScanLength(featuredIds, pages, consumed)
    requires Distinct(Ids(Flatten(pages)))
    ensures MatchedSessions(featuredIds, Collected(featuredIds, pages, consumed)) ==
            MatchedSessions(featuredIds, Wanted(featuredIds, Flatten(pages)))
  {
    if consumed < |pages| {
      assert StopsAfter(featuredIds, pages, consumed);
      assert pages == pages[..consumed] + pages[consumed..];
      FlattenConcat(pages[..consumed], pages[consumed..]);
      PrefixDistinctIds(pages, consumed);
      StoppedPrefixSameCards(featuredIds, Flatten(pages[..consumed]), Flatten(pages[consumed..]));
    } else {
      assert pages[..consumed] == pages;
    }
  }

  /** Keeping only featured sessions changes no card, when no featured id is empty. */
  lemma {:induction false} WantedSameFirstMatch(featuredIds: seq<SessionId>, xs: seq<Session>, id: SessionId)
    requires IsWanted(featuredIds, id)
    ensures FirstWithId(Wanted(featuredIds, xs), id) == FirstWithId(xs, id)
    decreases |xs|
  {
    if xs != [] {
      var init := xs[..|xs| - 1];
      var last := xs[|xs| - 1];
      WantedSameFirstMatch(featuredIds, init, id);
      assert xs == init + [last];
      FirstWithIdConcat(init, [last], id);
      FirstWithIdConcat(Wanted(featuredIds, init), if IsWanted(featuredIds, last.id) then [last] else [], id);
      assert [last][..0] == [];
    }
  }

  lemma {:induction false} WantedSameCards(featuredIds: seq<SessionId>, ids: seq<SessionId>, xs: seq<Session>)
    requires forall id :: id in ids ==> IsWanted(featuredIds, id)
    ensures MatchedSessions(ids, Wanted(featuredIds, xs)) == MatchedSessions(ids, xs)
    decreases |ids|
  {
    if ids != [] {
      var init := ids[..|ids| - 1];
      assert forall id :: id in init ==> id in ids;
      WantedSameCards(featuredIds, init, xs);
      WantedSameFirstMatch(featuredIds, xs, ids[|ids| - 1]);
    }
  }

  /** With distinct session ids and no empty featured id, the registration widget's
      early-stopping scan yields the sessions that the source version of the featured-session
      widget finds in the whole flattened source. */
  lemma EarlyStopMatchesFullFlatten(featuredIds: seq<SessionId>, pages: seq<seq<Session>>, consumed: nat)
    requires IsScanLength(featuredIds, pages, consumed)
    requires Distinct(Ids(Flatten(pages))) && "" !in featuredIds
    ensures MatchedSessions(featuredIds, Collected(featuredIds, pages, consumed)) ==
            MatchedSessions(featuredIds, Flatten(pages))
  {
    EarlyStopSameCards(featuredIds, pages, consumed);
    WantedSameCards(featuredIds, featuredIds, Flatten(pages));
  }

  class Widget {
    const configuration: Config
    var images: seq<Url>
    var sessionDetails: seq<Session>

    constructor (configuration: Config, stockImages: seq<Url>)
      ensures this.configuration == configuration && images == stockImages && sessionDetails == []
    {
      this.configuration := configuration;
      images := stockImages;
      sessionDetails := [];
    }

    /** `connectedCallback`, given the pages the session generator would yield; `consumed`
        is how many of them are requested. */
    method ConnectedCallback(pages: seq<seq<Session>>) returns (children: seq<Element>, consumed: nat)
      modifies this`images, this`sessionDetails
      ensures IsScanLength(FeaturedIds(configuration), pages, consumed)
      ensures sessionDetails == Collected(FeaturedIds(configuration), pages, consumed)
      ensures children == Container(CardsFor(MatchedSessions(FeaturedIds(configuration), sessionDetails), old(images)))
      ensures images == AfterPops(old(images), |children| - 1)
    {
      var featuredSessionIds := FeaturedIds(configuration);
      var sessions;
      sessions, consumed := ScanPages(featuredSessionIds, pages);
      sessionDetails := sessions;
      var cards;
      cards, images := AssembleCards(featuredSessionIds, sessions, images);
      children := Container(cards);
    }
  }
}

/** Card assembly shared by the registration widget and the source version of the
    featured-session widget: for each featured id in order, `sessions.find` picks the first
    session with that id; when there is one, a card is appended with the next image taken by
    `images.pop()`, and an id without a session is skipped. */
module SessionCards {
  import opened Common

  /** `sessions.find(session => session.id === id)` */
  function FirstWithId(sessions: seq<Session>, id: SessionId): (r: Option<Session>)
    ensures r.Some? <==> id in Ids(sessions)
    ensures r.Some? ==> exists i :: 0 <= i < |sessions| && sessions[i] == r.value &&
                                    r.value.id == id && id !in Ids(sessions[..i])
  {
    if sessions == [] then None
    else
      var init := sessions[..|sessions| - 1];
      var last := sessions[|sessions| - 1];
      assert Ids(sessions) == Ids(init) + [last.id];
      var p := FirstWithId(init, id);
      if p.Some? then
        assert forall i :: 0 <= i < |init| ==> sessions[..i] == init[..i];
        p
      else if last.id == id then
        assert Ids(sessions[..|sessions| - 1]) == Ids(init);
        Some(last)
      else None
  }

  /** The first match in a concatenation is the first match in the front part, if there
      is one there, and the first match in the back part otherwise. */
  lemma {:induction false} FirstWithIdConcat(a: seq<Session>, b: seq<Session>, id: SessionId)
    ensures FirstWithId(a + b, id) == if FirstWithId(a, id).Some? then FirstWithId(a, id) else FirstWithId(b, id)
    decreases |b|
  {
    if b == [] {
      assert a + b == a;
    } else {
      var b' := b[..|b| - 1];
      assert (a + b)[..|a + b| - 1] == a + b';
      FirstWithIdConcat(a, b', id);
    }
  }

  /** The sessions the cards are built from, one per featured id that has a session. */
  function MatchedSessions(ids: seq<SessionId>, sessions: seq<Session>): (r: seq<Session>)
    ensures |r| <= |ids|
    ensures forall k :: 0 <= k < |r| ==> r[k] in sessions && r[k].id in ids
  {
    if ids == [] then []
    else
      var init := MatchedSessions(ids[..|ids| - 1], sessions);
      match FirstWithId(sessions, ids[|ids| - 1])
      case Some(s) => init + [s]
      case None => init
  }

  /** Cards follow the featured ids: the cards for a concatenation of id lists are the
      cards for the first list followed by those for the second. */
  lemma {:induction false} MatchedSessionsConcat(a: seq<SessionId>, b: seq<SessionId>, sessions: seq<Session>)
    ensures MatchedSessions(a + b, sessions) == MatchedSessions(a, sessions) + MatchedSessions(b, sessions)
    decreases |b|
  {
    if b == [] {
      assert a + b == a;
    } else {
      var b' := b[..|b| - 1];
      assert (a + b)[..|a + b| - 1] == a + b';
      MatchedSessionsConcat(a, b', sessions);
    }
  }

  /** One id yields the first session with that id, or nothing. */
  lemma MatchedSessionsSingle(id: SessionId, sessions: seq<Session>)
    ensures MatchedSessions([id], sessions) ==
            match FirstWithId(sessions, id) case Some(s) => [s] case None => []
  {
    assert [id][..0] == [];
  }

  /** An id without a session is skipped; nothing else changes. */
  lemma MissingIdSkipped(a: seq<SessionId>, id: SessionId, b: seq<SessionId>, sessions: seq<Session>)
    requires id !in Ids(sessions)
    ensures MatchedSessions(a + [id] + b, sessions) == MatchedSessions(a + b, sessions)
  {
    MatchedSessionsConcat(a + [id], b, sessions);
    MatchedSessionsConcat(a, [id], sessions);
    MatchedSessionsConcat(a, b, sessions);
    MatchedSessionsSingle(id, sessions);
  }

  /** An id listed twice yields two cards for the same (first) session. */
  lemma DuplicateIdTwoCards(id: SessionId, sessions: seq<Session>)
    requires id in Ids(sessions)
    ensures MatchedSessions([id, id], sessions) == [FirstWithId(sessions, id).value, FirstWithId(sessions, id).value]
  {
    MatchedSessionsConcat([id], [id], sessions);
    assert [id] + [id] == [id, id];
    MatchedSessionsSingle(id, sessions);
  }

  /** If every featured id has a session in `a`, sessions after `a` change no card. */
  lemma {:induction false} MatchedSessionsPrefix(ids: seq<SessionId>, a: seq<Session>, b: seq<Session>)
    requires forall id :: id in ids ==> id in Ids(a)
    ensures MatchedSessions(ids, a + b) == MatchedSessions(ids, a)
    decreases |ids|
  {
    if ids != [] {
      var init := ids[..|ids| - 1];
      assert forall id :: id in init ==> id in ids;
      MatchedSessionsPrefix(init, a, b);
      FirstWithIdConcat(a, b, ids[|ids| - 1]);
    }
  }

  /** Card k shows the k-th matched session with the image of the k-th `pop()`. */
  function CardsFor(matched: seq<Session>, images: seq<Url>): seq<Card> {
    seq(|matched|, k requires 0 <= k < |matched| => SessionCard(matched[k], NthPop(images, k)))
  }

  /** One more matched session adds one card, with the image of the next `pop()`. */
  lemma CardsForSnoc(matched: seq<Session>, s: Session, images: seq<Url>)
    ensures CardsFor(matched + [s], images) == CardsFor(matched, images) + [SessionCard(s, NthPop(images, |matched|))]
  {
  }

  /** One more featured id adds its first session, if it has one. */
  lemma MatchedSessionsStep(ids: seq<SessionId>, k: nat, sessions: seq<Session>)
    requires k < |ids|
    ensures MatchedSessions(ids[..k + 1], sessions) ==
            MatchedSessions(ids[..k], sessions) + match FirstWithId(sessions, ids[k]) case Some(s) => [s] case None => []
  {
    assert ids[..k + 1][..k] == ids[..k];
  }

  /** The `forEach` over the featured ids. `images` is the widget's image list before the
      loop and `left` what the pops leave of it. */
  method AssembleCards(ids: seq<SessionId>, sessions: seq<Session>, images: seq<Url>)
    returns (cards: seq<Card>, left: seq<Url>)
    ensures cards == CardsFor(MatchedSessions(ids, sessions), images)
    ensures left == AfterPops(images, |cards|)
  {
    cards := [];
    left := images;
    ghost var matched: seq<Session> := [];
    var k := 0;
    while k < |ids|
      invariant k <= |ids|
      invariant matched == MatchedSessions(ids[..k], sessions)
      invariant cards == CardsFor(matched, images)
      invariant left == AfterPops(images, |matched|)
    {
      MatchedSessionsStep(ids, k, sessions);
      var featuredSession := FirstWithId(sessions, ids[k]);
      if featuredSession.Some? {
        PopStep(images, |matched|);
        CardsForSnoc(matched, featuredSession.value, images);
        var popped := Pop(left);
        left := popped.1;
        cards := cards + [SessionCard(featuredSession.value, popped.0)];
        matched := matched + [featuredSession.value];
      }
      k := k + 1;
    }
    assert ids[..k] == ids;
  }
}

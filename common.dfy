/** Values shared by the featured-session widgets, their editor and the registration card:
    session records as the host supplies them, the widget configuration, the cards a
    widget appends, JavaScript's `Array.prototype.pop` on the widgets' image list, and the
    concatenation of a paged session source. */
module Common {

  /** `undefined` / `null` versus a present value. */
  datatype Option<+T> = None | Some(value: T) {
    /** `x ?? default` */
    function GetOr(default: T): T {
      match this
      case Some(v) => v
      case None => default
    }
  }

  type SessionId = string
  type Url = string

  datatype Location = Location(name: string)

  /** A session summary as the host's session source yields it; never transformed here. */
  datatype Session = Session(
    id: SessionId,
    name: string,
    description: string,
    location: Option<Location>,
    startDateTime: string,
    endDateTime: string)

  /** `customColors`: colour code to colour. A key present with `None` is a key explicitly
      set to `undefined`. */
  type Colors = map<string, Option<string>>

  /** The widget configuration the editor publishes and the widgets receive. `rest` stands
      for every other key of the configuration object, with opaque values. */
  datatype Config = Config(
    featuredSessionIds: Option<seq<SessionId>>,
    customColors: Option<Colors>,
    rest: map<string, string>)

  /** `configuration.featuredSessionIds ?? []` */
  function FeaturedIds(c: Config): seq<SessionId> {
    c.featuredSessionIds.GetOr([])
  }

  /** A featured-session card. `EmptyCard` is the element the card constructor leaves
      without content when it is given no session. */
  datatype Card = SessionCard(session: Session, image: Option<Url>) | EmptyCard

  /** A child of a widget's card container. */
  datatype Element = Placeholder | CardElement(card: Card)

  /** The container a widget builds: the placeholder first, then one element per card. */
  function Container(cards: seq<Card>): seq<Element> {
    [Placeholder] + seq(|cards|, k requires 0 <= k < |cards| => CardElement(cards[k]))
  }

  /** Element k + 1 of the container is card k. */
  lemma ContainerElements(cards: seq<Card>)
    ensures |Container(cards)| == |cards| + 1 && Container(cards)[0] == Placeholder
    ensures forall k :: 0 <= k < |cards| ==> Container(cards)[k + 1] == CardElement(cards[k])
  {
  }

  // ---------------------------------------------------------------------------
  // The image list and `pop()`

  /** `images.pop()`: the last element, or `undefined` on an empty list, and what is left. */
  function Pop(s: seq<Url>): (Option<Url>, seq<Url>) {
    if s == [] then (None, []) else (Some(s[|s| - 1]), s[..|s| - 1])
  }

  /** What the k-th successive `pop()` (counting from 0) returns. */
  function NthPop(images: seq<Url>, k: nat): Option<Url> {
    if k < |images| then Some(images[|images| - 1 - k]) else None
  }

  /** The list left after n successive `pop()` calls. */
  function AfterPops(images: seq<Url>, n: nat): seq<Url> {
    if n <= |images| then images[..|images| - n] else []
  }

  /** Popping the list left by k pops yields the k-th popped image and the list left by
      k + 1 pops: successive pops hand out the images from the end, then `undefined`. */
  lemma PopStep(images: seq<Url>, k: nat)
    ensures Pop(AfterPops(images, k)) == (NthPop(images, k), AfterPops(images, k + 1))
    ensures |AfterPops(images, k + 1)| == if k < |images| then |images| - k - 1 else 0
  {
    if k < |images| {
      assert images[..|images| - k][..|images| - k - 1] == images[..|images| - k - 1];
    }
  }

  // ---------------------------------------------------------------------------
  // A paged session source

  /** All sessions of the pages, page after page, each page in its own order. */
  function Flatten(pages: seq<seq<Session>>): seq<Session> {
    if pages == [] then [] else Flatten(pages[..|pages| - 1]) + pages[|pages| - 1]
  }

  /** Concatenating sources concatenates their sessions: nothing is dropped or reordered. */
  lemma {:induction false} FlattenConcat(p: seq<seq<Session>>, q: seq<seq<Session>>)
    ensures Flatten(p + q) == Flatten(p) + Flatten(q)
    decreases |q|
  {
    if q == [] {
      assert p + q == p;
    } else {
      var q' := q[..|q| - 1];
      assert (p + q)[..|p + q| - 1] == p + q';
      FlattenConcat(p, q');
    }
  }

  /** Taking one more page appends exactly that page's sessions. */
  lemma FlattenStep(pages: seq<seq<Session>>, k: nat)
    requires k < |pages|
    ensures Flatten(pages[..k + 1]) == Flatten(pages[..k]) + pages[k]
  {
    assert pages[..k + 1][..k] == pages[..k];
  }

  /** The ids of a list of sessions, in order. */
  function Ids(s: seq<Session>): (r: seq<SessionId>)
    ensures |r| == |s|
    ensures forall i :: 0 <= i < |s| ==> r[i] == s[i].id
  {
    if s == [] then [] else Ids(s[..|s| - 1]) + [s[|s| - 1].id]
  }

  lemma IdsConcat(a: seq<Session>, b: seq<Session>)
    ensures Ids(a + b) == Ids(a) + Ids(b)
  {
    assert Ids(a + b) == Ids(a) + Ids(b);
  }

  // ---------------------------------------------------------------------------
  // Distinct elements and cardinalities

  predicate Distinct<T(==)>(s: seq<T>) {
    forall i, j :: 0 <= i < j < |s| ==> s[i] != s[j]
  }

  /** Appending an element not yet present keeps a list distinct. */
  lemma DistinctSnoc<T>(s: seq<T>, x: T)
    requires Distinct(s) && x !in s
    ensures Distinct(s + [x])
  {
  }


  /** What a list lacks, its prefixes lack. */
  lemma NotInPrefix<T>(s: seq<T>, n: nat, x: T)
    requires n <= |s| && x !in s
    ensures x !in s[..n]
  {
  }

  /** A prefix of a distinct list is distinct. */
  lemma DistinctPrefix<T>(s: seq<T>, n: nat)
    requires Distinct(s) && n <= |s|
    ensures Distinct(s[..n])
  {
  }

  /** The parts of a distinct list are distinct, and its last element is not in the rest. */
  lemma DistinctSnocParts<T>(s: seq<T>, x: T)
    requires Distinct(s + [x])
    ensures Distinct(s) && x !in s
  {
    assert forall i :: 0 <= i < |s| ==> (s + [x])[i] == s[i];
    forall i | 0 <= i < |s| ensures s[i] != x {
      assert (s + [x])[|s|] == x;
    }
  }

  function Elements<T(==)>(s: seq<T>): set<T> {
    set x | x in s
  }

  /** A list has at least as many entries as distinct elements, and exactly as many when
      its entries are distinct. */
  lemma {:induction false} ElementsCard<T>(s: seq<T>)
    ensures |Elements(s)| <= |s|
    ensures Distinct(s) ==> |Elements(s)| == |s|
  {
    if s != [] {
      var s' := s[..|s| - 1];
      var x := s[|s| - 1];
      ElementsCard(s');
      assert Elements(s) == Elements(s') + {x};
      if x in Elements(s') {
        assert Elements(s) == Elements(s');
        var i :| 0 <= i < |s'| && s'[i] == x;
        assert s[i] == s[|s| - 1];
      } else {
        assert |Elements(s)| == |Elements(s')| + 1;
      }
    }
  }

  /** A list with a repeated entry has fewer distinct elements than entries. */
  lemma {:induction false} ElementsCardStrict<T>(s: seq<T>)
    requires !Distinct(s)
    ensures |Elements(s)| < |s|
  {
    var s' := s[..|s| - 1];
    var x := s[|s| - 1];
    assert Elements(s) == Elements(s') + {x};
    ElementsCard(s');
    if Distinct(s') {
      var i, j :| 0 <= i < j < |s| && s[i] == s[j];
      assert j == |s| - 1 && s'[i] == x;
      assert Elements(s) == Elements(s');
    } else {
      ElementsCardStrict(s');
    }
  }

  /** A subset as large as its superset is the superset. */
  lemma {:induction false} SubsetSameCard<T>(a: set<T>, b: set<T>)
    requires a <= b && |a| == |b|
    ensures a == b
  {
    if a != b {
      var x :| x in b && x !in a;
      assert a <= b - {x};
      assert |b - {x}| == |b| - 1;
      SubsetCard(a, b - {x});
    }
  }

  lemma {:induction false} SubsetCard<T>(a: set<T>, b: set<T>)
    requires a <= b
    ensures |a| <= |b|
  {
    assert b == a + (b - a);
  }
}

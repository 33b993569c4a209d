/** The gallery grid (`CardList`): one card per image, and the state of the
    enlarged-image overlay — the URL last asked for and whether the overlay is
    open. */
module CardList {

  /** One image of the gallery, as the backend lists it. */
  datatype Card = Card(title: string, description: string, url: string, ts: int, id: string)

  /** One rendered card: its key, the data it shows, and the URL its view
      callback hands to `handleViewImage`. */
  datatype CardElement = CardElement(key: string, data: Card, viewUrl: string)

  /** `cards.map(...)`: one element per card, in the same order. */
  function Render(cards: seq<Card>): (elements: seq<CardElement>)
    ensures |elements| == |cards|
    ensures forall i :: 0 <= i < |cards| ==>
      elements[i].key == cards[i].id && elements[i].data == cards[i] && elements[i].viewUrl == cards[i].url
  {
    if cards == [] then []
    else [CardElement(cards[0].id, cards[0], cards[0].url)] + Render(cards[1..])
  }

  /** Rendering a concatenation renders each part. */
  lemma {:induction false} RenderAppend(a: seq<Card>, b: seq<Card>)
    ensures Render(a + b) == Render(a) + Render(b)
  {
    if a == [] {
      assert a + b == b;
    } else {
      assert (a + b)[1..] == a[1..] + b;
      RenderAppend(a[1..], b);
    }
  }

  predicate KeysDistinct(elements: seq<CardElement>)
  {
    forall i, j :: 0 <= i < j < |elements| ==> elements[i].key != elements[j].key
  }

  predicate IdsDistinct(cards: seq<Card>)
  {
    forall i, j :: 0 <= i < j < |cards| ==> cards[i].id != cards[j].id
  }

  /** The React keys are distinct exactly when the card identifiers are. */
  lemma RenderKeysDistinct(cards: seq<Card>)
    ensures KeysDistinct(Render(cards)) <==> IdsDistinct(cards)
  {
    var elements := Render(cards);
    if KeysDistinct(elements) {
      forall i, j | 0 <= i < j < |cards| ensures cards[i].id != cards[j].id {
        assert elements[i].key != elements[j].key;
      }
    }
    if IdsDistinct(cards) {
      forall i, j | 0 <= i < j < |elements| ensures elements[i].key != elements[j].key {
        assert cards[i].id != cards[j].id;
      }
    }
  }

  // ---------------------------------------------------------------------
  // The overlay state
  // ---------------------------------------------------------------------

  /** `selectedImageUrl` and the disclosure's `isOpen`. */
  datatype ViewState = ViewState(selectedImageUrl: string, isOpen: bool)

  /** Before any interaction: no URL and the overlay closed. */
  const Initial := ViewState("", false)

  /** The two things a user can do: view a card's image, or close the overlay. */
  datatype Action = View(url: string) | Close

  /** One transition: viewing stores the URL and opens; closing only closes. */
  function Step(s: ViewState, a: Action): (t: ViewState)
    ensures t.isOpen <==> a.View?
    ensures t.selectedImageUrl == if a.View? then a.url else s.selectedImageUrl
  {
    match a
    case View(url) => ViewState(url, true)
    case Close => s.(isOpen := false)
  }

  /** The state after a sequence of actions. */
  function Run(s: ViewState, actions: seq<Action>): ViewState
    decreases |actions|
  {
    if actions == [] then s else Run(Step(s, actions[0]), actions[1..])
  }

  /** The URL of the last `View` among `actions`, or `default` if none. */
  function LastViewed(actions: seq<Action>, default: string): string
    decreases |actions|
  {
    if actions == [] then default
    else if actions[|actions| - 1].View? then actions[|actions| - 1].url
    else LastViewed(actions[..|actions| - 1], default)
  }

  lemma {:induction false} RunSnoc(s: ViewState, actions: seq<Action>, a: Action)
    ensures Run(s, actions + [a]) == Step(Run(s, actions), a)
    decreases |actions|
  {
    if actions != [] {
      assert (actions + [a])[1..] == actions[1..] + [a];
      RunSnoc(Step(s, actions[0]), actions[1..], a);
    }
  }

  /** Whatever the history, the stored URL is the one last viewed (so the last
      of two views wins, and closing keeps it), and the overlay is open exactly
      when the last action was a view. */
  lemma {:induction false} RunMeaning(s: ViewState, actions: seq<Action>)
    ensures Run(s, actions).selectedImageUrl == LastViewed(actions, s.selectedImageUrl)
    ensures Run(s, actions).isOpen == if actions == [] then s.isOpen else actions[|actions| - 1].View?
    decreases |actions|
  {
    if actions != [] {
      var front := actions[..|actions| - 1];
      var last := actions[|actions| - 1];
      assert actions == front + [last];
      RunSnoc(s, front, last);
      RunMeaning(s, front);
    }
  }

  /** Viewing A and then B leaves B selected; closing afterwards keeps B. */
  lemma LastViewWins(s: ViewState, a: string, b: string)
    ensures Run(s, [View(a), View(b)]) == ViewState(b, true)
    ensures Run(s, [View(a), View(b), Close]) == ViewState(b, false)
  {
    var viewedA := ViewState(a, true);
    var viewedB := ViewState(b, true);
    assert [View(a), View(b)][1..] == [View(b)];
    assert [View(a), View(b), Close][1..] == [View(b), Close];
    assert [View(b), Close][1..] == [Close];
    assert Run(viewedB, []) == viewedB;
    assert Run(viewedA, [View(b)]) == Run(viewedB, []);
    assert Run(viewedB, [Close]) == Run(ViewState(b, false), []);
    assert Run(viewedA, [View(b), Close]) == Run(viewedB, [Close]);
  }

  /** The component: the cards it was given and its overlay state. */
  class CardList {
    const cards: seq<Card>
    var selectedImageUrl: string
    var isOpen: bool

    function State(): ViewState
      reads this
    {
      ViewState(selectedImageUrl, isOpen)
    }

    constructor (cards: seq<Card>)
      ensures this.cards == cards && State() == Initial
    {
      this.cards := cards;
      selectedImageUrl := "";
      isOpen := false;
    }

    /** The disclosure's `onOpen`. */
    method OnOpen()
      modifies this
      ensures isOpen && selectedImageUrl == old(selectedImageUrl)
    {
      isOpen := true;
    }

    /** The disclosure's `onClose`, handed to the overlay. */
    method OnClose()
      modifies this
      ensures State() == Step(old(State()), Close)
    {
      isOpen := false;
    }

    /** `handleViewImage(url)`: store the URL, then open the overlay. */
    method HandleViewImage(url: string)
      modifies this
      ensures State() == Step(old(State()), View(url))
    {
      selectedImageUrl := url;
      OnOpen();
    }

    /** The view callback of the `i`-th rendered card. */
    method ViewCard(i: nat)
      requires i < |cards|
      modifies this
      ensures selectedImageUrl == cards[i].url && isOpen
    {
      var elements := Render(cards);
      HandleViewImage(elements[i].viewUrl);
    }
  }
}

/** The card controller of app.js: the module-level state (`tickets`,
    `currentIndex`, `studiedTickets`, the card's `flipped` class), what is on
    the page, and what is kept in `localStorage`, with `loadData`,
    `updateDisplay`, `flipCard`, `nextTicket` and the two input handlers as
    methods over it. */
module Session {
  import opened Wrappers
  import opened Resolver
  import opened Display
  import opened Input

  /** The JSON value `response.json()` produced: an array of ticket objects or
      something else. */
  datatype Payload = NotArray | Items(records: seq<Record>)

  /** The outcome of `fetch('tickets.json')` and `response.json()`: the fetch
      was rejected, the response was not OK, the body is not JSON, or the
      parsed payload. */
  datatype Fetched = NetworkError | HttpError | BadJson | Body(payload: Payload)

  /** Why loading failed: the fetch was rejected, the response was not OK, the
      body did not parse, the data is not a non-empty array, or the first
      render threw. */
  datatype LoadError = FetchFailed | FileNotFound | ParseFailed | NoData | RenderFailed

  /** The loading overlay: still shown, hidden after a successful load, or
      replaced by the error diagnostic. */
  datatype Overlay = Loading | Hidden | Failed(error: LoadError)

  /** The "position / total" counter. */
  datatype Counter = Counter(position: int, total: nat)

  /** The studied and remaining counts. */
  datatype Stats = Stats(studied: nat, remaining: int)

  /** The payload check of `loadData`: an array with at least one element. */
  predicate UsablePayload(p: Payload) {
    p.Items? && p.records != []
  }

  /** `Math.trunc(a / b)` for `b > 0`: the quotient rounded toward zero. */
  function JsQuot(a: int, b: int): int
    requires b > 0
  {
    if a >= 0 then a / b else -((-a) / b)
  }

  /** JavaScript's `a % b` for `b > 0`: the remainder of truncating division,
      which takes the sign of `a`. It agrees with the mathematical remainder on
      non-negative `a` and leaves a small negative `a` unchanged. */
  function JsRem(a: int, b: int): (r: int)
    requires b > 0
    ensures a == JsQuot(a, b) * b + r
    ensures -b < r < b
    ensures a >= 0 ==> r == a % b
    ensures a <= 0 ==> r <= 0
    ensures -b < a <= 0 ==> r == a
    ensures 0 <= a < b ==> r == a
    ensures a == b ==> r == 0
  {
    if a >= 0 then
      SmallRemainder(a, b);
      a % b
    else
      var m := -a;
      assert m == (m / b) * b + m % b;
      assert -(m / b) * b == -((m / b) * b);
      SmallRemainder(m, b);
      -(m % b)
  }

  /** Euclidean division of a non-negative number below the divisor, and of
      the divisor itself. */
  lemma SmallRemainder(a: int, b: int)
    requires 0 <= a && b > 0
    ensures a < b ==> a % b == a
    ensures a == b ==> a % b == 0
  {
    if a < b {
      assert a == (a / b) * b + a % b;
      assert a / b == 0;
    }
  }

  /** The remainder keeps the sign of the dividend: `-7 % 3` is `-1`, not the
      mathematical `2`. */
  lemma JsRemNegative()
    ensures JsRem(-7, 3) == -1 && JsRem(7, 3) == 1 && JsRem(-6, 3) == 0
  {
  }

  /** The index `nextTicket` moves to: `(i + 1) % n`. From an index in range it
      stays in range, wrapping from the last ticket to the first. From -1 it
      reaches 0; from an index in [-n, -1) it climbs by one and stays
      negative; from below -n it lands on the truncated remainder, in
      (-n, 0]. */
  function NextIndex(i: int, n: nat): (j: int)
    requires n > 0
    ensures i + 1 == JsQuot(i + 1, n) * n + j
    ensures j < n
    ensures -1 <= i ==> 0 <= j
    ensures 0 <= i < n ==> (j == if i == n - 1 then 0 else i + 1)
    ensures -(n as int) <= i < 0 ==> j == i + 1
    ensures i < -(n as int) ==> -(n as int) < j <= 0
  {
    JsRem(i + 1, n)
  }

  /** The index after `k` calls of `nextTicket`. */
  function NextIndexN(i: int, n: nat, k: nat): int
    requires n > 0
  {
    if k == 0 then i else NextIndex(NextIndexN(i, n, k - 1), n)
  }

  /** Below the last ticket, `k` advances move `k` places forward. */
  lemma {:induction false} NextIndexClimbs(i: int, n: nat, k: nat)
    requires n > 0 && 0 <= i && i + k < n
    ensures NextIndexN(i, n, k) == i + k
  {
    if k > 0 {
      NextIndexClimbs(i, n, k - 1);
    }
  }

  /** `a` advances followed by `b` advances are `a + b` advances. */
  lemma {:induction false} NextIndexCompose(i: int, n: nat, a: nat, b: nat)
    requires n > 0
    ensures NextIndexN(i, n, a + b) == NextIndexN(NextIndexN(i, n, a), n, b)
  {
    if b > 0 {
      NextIndexCompose(i, n, a, b - 1);
    }
  }

  /** Navigation is a cycle: `n` advances return to the starting ticket. */
  lemma CycleReturns(i: int, n: nat)
    requires 0 <= i < n
    ensures NextIndexN(i, n, n) == i
  {
    NextIndexCompose(i, n, n - i, i);
    NextIndexClimbs(i, n, n - i - 1);
    assert NextIndexN(i, n, n - i) == 0;
    NextIndexClimbs(0, n, i);
  }

  /** The index `loadData` restores: a saved index at or beyond the number of
      tickets becomes 0; any other saved index (a negative one included) is
      kept; without a saved index the current one stays. */
  function RestoreIndex(saved: Option<int>, current: int, n: nat): (r: int)
    ensures saved.Some? ==> r < n || (n == 0 && r == 0)
    ensures saved.Some? && saved.value < n ==> r == saved.value
    ensures saved.Some? && saved.value >= n ==> r == 0
    ensures saved.None? ==> r == current
  {
    match saved
    case None => current
    case Some(i) => if i >= n then 0 else i
  }

  class Session {
    var tickets: seq<Record>
    var currentIndex: int
    var studied: set<int>
    var flipped: bool
    /** Which ticket the card on the page was last rendered from; the texts
        on the card are `ShownCard()`. Tickets never change once loaded, so
        the index determines the texts. */
    var shown: Option<int>
    var counter: Option<Counter>
    var stats: Option<Stats>
    var overlay: Overlay
    /** `localStorage` entries 'currentIndex' and 'studiedTickets'. */
    var savedIndex: Option<int>
    var savedStudied: Option<set<int>>

    /** The index is never past the end of a loaded ticket list, and it is 0
        while there is none; every studied ticket is in the stored set. */
    ghost predicate Valid()
      reads this
    {
      && (if tickets == [] then currentIndex == 0 else currentIndex < |tickets|)
      && studied <= savedStudied.GetOr({})
    }

    /** The card on the page: number label, question and answer derived from
        the ticket it was last rendered from, or nothing before the first
        render. */
    function ShownCard(): Option<Card>
      reads this`shown, this`tickets
    {
      if shown.Some? && 0 <= shown.value < |tickets| then
        Some(DeriveCard(tickets[shown.value], shown.value))
      else
        None
    }

    /** The page after a successful render of the current ticket: the card
        was rendered from it, the counter and the counts are up to date, and
        the index is saved. The texts on the card then follow, as
        `ShowsCurrentTicket` states. */
    ghost predicate Rendered()
      reads this
    {
      && 0 <= currentIndex < |tickets|
      && shown == Some(currentIndex)
      && counter == Some(Counter(currentIndex + 1, |tickets|))
      && stats == Some(Stats(|studied|, |tickets| - |studied|))
      && savedIndex == Some(currentIndex)
    }

    /** The page and storage are as they were: what a render that throws
        leaves behind. */
    twostate predicate PageUnchanged()
      reads this
    {
      && shown == old(shown) && counter == old(counter) && stats == old(stats)
      && flipped == old(flipped) && savedIndex == old(savedIndex)
    }

    /** The effect of `nextTicket`: the index moves to `(currentIndex + 1) % n`;
        when the new index is a ticket position the card is rendered face
        down, otherwise the render throws and the page is left as it was. The
        ticket list, the studied set and its stored copy do not change. */
    twostate predicate Advanced()
      reads this
    {
      && tickets == old(tickets) && tickets != []
      && studied == old(studied) && savedStudied == old(savedStudied) && overlay == old(overlay)
      && currentIndex == NextIndex(old(currentIndex), |tickets|)
      && (0 <= currentIndex ==> Rendered() && !flipped)
      && (currentIndex < 0 ==> PageUnchanged())
    }

    /** The effect of `flipCard`: the flip is toggled; turning the card face
        up adds the current index to the studied set, stores the set and
        refreshes the counts; nothing else changes. */
    twostate predicate Flipped()
      reads this
    {
      && flipped == !old(flipped)
      && studied == (if flipped then old(studied) + {currentIndex} else old(studied))
      && savedStudied == (if flipped then Some(studied) else old(savedStudied))
      && stats == (if flipped then Some(Stats(|studied|, |tickets| - |studied|)) else old(stats))
      && tickets == old(tickets) && currentIndex == old(currentIndex)
      && shown == old(shown) && counter == old(counter) && overlay == old(overlay)
      && savedIndex == old(savedIndex)
    }

    /** The page before `loadData`, over what earlier sessions saved. */
    constructor (storedIndex: Option<int>, storedStudied: Option<set<int>>)
      ensures Valid()
      ensures tickets == [] && currentIndex == 0 && studied == {} && !flipped
      ensures shown == None && counter == None && stats == None && overlay == Loading
      ensures savedIndex == storedIndex && savedStudied == storedStudied
    {
      tickets, currentIndex, studied, flipped := [], 0, {}, false;
      shown, counter, stats, overlay := None, None, None, Loading;
      savedIndex, savedStudied := storedIndex, storedStudied;
    }

    /** `updateDisplay(resetFlip)`: nothing happens without tickets; at a
        negative index `tickets[currentIndex]` is undefined and the resolver
        throws before anything is written (`ok` is false); otherwise the card,
        counter and counts are shown, the flip is optionally cleared and the
        index is saved. The card is rendered from the current ticket, so its
        texts are those `ShowsCurrentTicket` derives from `Rendered()`. */
    method UpdateDisplay(resetFlip: bool) returns (ok: bool)
      requires Valid()
      modifies this
      ensures Valid()
      ensures ok <==> tickets == [] || 0 <= currentIndex
      ensures tickets == old(tickets) && currentIndex == old(currentIndex) && studied == old(studied)
      ensures overlay == old(overlay) && savedStudied == old(savedStudied)
      ensures tickets != [] && 0 <= currentIndex ==>
        Rendered() && flipped == (old(flipped) && !resetFlip)
      ensures tickets == [] || currentIndex < 0 ==> PageUnchanged()
    {
      if tickets == [] {
        return true;
      }
      if currentIndex < 0 {
        return false;
      }
      shown := Some(currentIndex);
      if resetFlip {
        flipped := false;
      }
      counter := Some(Counter(currentIndex + 1, |tickets|));
      stats := Some(Stats(|studied|, |tickets| - |studied|));
      savedIndex := Some(currentIndex);
      ok := true;
    }

    /** The rest of `loadData` once the payload is a non-empty array: take
        the tickets, restore the studied set and the index from storage (an
        index past the end becomes 0) and render; `ok` is false when the
        render throws. */
    method Resume(records: seq<Record>) returns (ok: bool)
      requires Valid() && tickets == [] && records != []
      modifies this
      ensures Valid()
      ensures tickets == records
      ensures studied == old(savedStudied).GetOr(old(studied))
      ensures old(studied) <= studied
      ensures currentIndex == RestoreIndex(old(savedIndex), old(currentIndex), |tickets|)
      ensures overlay == old(overlay) && savedStudied == old(savedStudied)
      ensures ok <==> 0 <= currentIndex
      ensures !ok ==> PageUnchanged()
      ensures ok ==> Rendered() && !flipped
    {
      var restored := studied;
      if savedStudied.Some? {
        restored := savedStudied.value;
      }
      tickets, studied, currentIndex := records, restored, RestoreIndex(savedIndex, currentIndex, |records|);
      ok := UpdateDisplay(true);
    }

    /** `loadData`: a failed fetch, an unparsable body or a payload that is
        not a non-empty array leaves the page unrendered with the diagnostic
        shown and no tickets; otherwise the tickets are taken, the studied set
        and the index are restored from storage (the index reset to 0 when it
        is past the end), and the first render runs; when it throws, the
        diagnostic is shown instead and the page stays as it was. */
    method Load(fetched: Fetched) returns (err: Option<LoadError>)
      requires Valid() && tickets == []
      modifies this
      ensures Valid()
      ensures err.None? ==> overlay == Hidden
      ensures err.Some? ==> overlay == Failed(err.value)
      ensures savedStudied == old(savedStudied)
      ensures old(studied) <= studied
      ensures fetched.NetworkError? ==> err == Some(FetchFailed)
      ensures fetched.HttpError? ==> err == Some(FileNotFound)
      ensures fetched.BadJson? ==> err == Some(ParseFailed)
      ensures fetched.Body? && !UsablePayload(fetched.payload) ==> err == Some(NoData)
      ensures !(fetched.Body? && UsablePayload(fetched.payload)) ==>
        && tickets == [] && currentIndex == old(currentIndex) && studied == old(studied)
        && PageUnchanged()
      ensures fetched.Body? && UsablePayload(fetched.payload) ==>
        && tickets == fetched.payload.records
        && studied == old(savedStudied).GetOr(old(studied))
        && currentIndex == RestoreIndex(old(savedIndex), old(currentIndex), |tickets|)
        && (err.None? <==> 0 <= currentIndex)
        && (err.Some? ==> err == Some(RenderFailed) && PageUnchanged())
        && (err.None? ==> Rendered() && !flipped)
      ensures err.None? ==>
        ShownCard() == Some(DeriveCard(tickets[currentIndex], currentIndex))
    {
      match fetched {
        case NetworkError =>
          err := Some(FetchFailed);
        case HttpError =>
          err := Some(FileNotFound);
        case BadJson =>
          err := Some(ParseFailed);
        case Body(payload) =>
          if !UsablePayload(payload) {
            tickets := [];
            err := Some(NoData);
          } else {
            var ok := Resume(payload.records);
            err := if ok then None else Some(RenderFailed);
          }
      }
      if err.Some? {
        overlay := Failed(err.value);
      } else {
        overlay := Hidden;
      }
    }

    /** `flipCard`. Nothing is ever removed from the studied set. */
    method FlipCard()
      requires Valid()
      modifies this
      ensures Valid()
      ensures Flipped()
      ensures old(studied) <= studied
    {
      flipped := !flipped;
      if flipped {
        studied := studied + {currentIndex};
        savedStudied := Some(studied);
        stats := Some(Stats(|studied|, |tickets| - |studied|));
      }
    }

    /** `nextTicket`: only from an index below -1 can the new index still be
        negative, and then the render throws. */
    method NextTicket() returns (ok: bool)
      requires Valid() && tickets != []
      modifies this
      ensures Valid()
      ensures Advanced()
      ensures ok <==> 0 <= currentIndex
      ensures old(currentIndex) >= -1 ==> ok
      ensures ok ==> ShownCard() == Some(DeriveCard(tickets[currentIndex], currentIndex))
    {
      currentIndex := NextIndex(currentIndex, |tickets|);
      ok := UpdateDisplay(true);
    }

    /** Carry out one command of the input layer. */
    method Perform(cmd: Command)
      requires Valid()
      requires cmd == Advance ==> tickets != []
      modifies this
      ensures Valid()
      ensures cmd == Advance ==> Advanced()
      ensures cmd == Flip ==> Flipped()
      ensures cmd == Ignore ==> unchanged(this)
    {
      match cmd
      case Advance =>
        var _ := NextTicket();
      case Flip =>
        FlipCard();
      case Ignore =>
    }

    /** `handleSwipe` on a touch that started at `startX` and ended at `endX`:
        a long left swipe does what `nextTicket` does, a long right swipe what
        `flipCard` does, and a short one nothing. */
    method HandleSwipe(startX: int, endX: int)
      requires Valid()
      requires ClassifySwipe(startX, endX) == Advance ==> tickets != []
      modifies this
      ensures Valid()
      ensures startX - endX > SwipeThreshold ==> Advanced()
      ensures endX - startX > SwipeThreshold ==> Flipped()
      ensures -SwipeThreshold <= startX - endX <= SwipeThreshold ==> unchanged(this)
    {
      Perform(ClassifySwipe(startX, endX));
    }

    /** The keydown handler; `preventDefault` tells whether the browser's
        default action was suppressed. ArrowRight and space do what
        `nextTicket` does, ArrowLeft and Enter what `flipCard` does. */
    method HandleKey(key: string) returns (preventDefault: bool)
      requires Valid()
      requires ClassifyKey(key) == Advance ==> tickets != []
      modifies this
      ensures Valid()
      ensures preventDefault <==> ClassifyKey(key) != Ignore
      ensures key == "ArrowRight" || key == " " ==> Advanced()
      ensures key == "ArrowLeft" || key == "Enter" ==> Flipped()
      ensures ClassifyKey(key) == Ignore ==> unchanged(this)
    {
      preventDefault := PreventsDefault(key);
      Perform(ClassifyKey(key));
    }
  }

  /** After a render the card shows the texts derived from the current
      ticket. This is what `Advanced()`, and so `Perform`, `HandleSwipe` and
      `HandleKey` on an advancing input, say about the card. */
  lemma ShowsCurrentTicket(s: Session)
    requires s.Rendered()
    ensures s.ShownCard() == Some(DeriveCard(s.tickets[s.currentIndex], s.currentIndex))
  {
  }

  /** Reopening the app: a new session over what a rendered session saved,
      given the same tickets, comes back to the ticket that was on screen
      and renders it; the studied set is whatever was stored. */
  method Reopen(s: Session) returns (ok: bool, index: int, studied: set<int>)
    requires s.Rendered()
    ensures ok && index == s.currentIndex
    ensures studied == s.savedStudied.GetOr({})
  {
    var next := new Session(s.savedIndex, s.savedStudied);
    ok := next.Resume(s.tickets);
    index, studied := next.currentIndex, next.studied;
  }

  /** A session over any two tickets, driven from the keyboard: the tickets
      are taken with nothing saved, Enter turns the first card face up,
      ArrowRight and then space advance. The session ends back on the first
      ticket, face down, with that ticket studied and one left; on the way
      the card was rendered from ticket 0, then ticket 1, then ticket 0. */
  method WalkThrough(t1: Record, t2: Record) returns (index: int, studied: set<int>, stats: Option<Stats>)
    ensures index == 0 && studied == {0} && stats == Some(Stats(1, 1))
  {
    var s := new Session(None, None);
    var ok := s.Resume([t1, t2]);
    assert ok && s.currentIndex == 0 && s.shown == Some(0);
    assert s.counter == Some(Counter(1, 2)) && s.stats == Some(Stats(0, 2));
    var pressed := s.HandleKey("Enter");
    assert pressed && s.flipped && s.studied == {0} && s.savedStudied == Some({0});
    pressed := s.HandleKey("ArrowRight");
    assert pressed && s.currentIndex == 1 && !s.flipped && s.shown == Some(1);
    pressed := s.HandleKey(" ");
    assert pressed && s.shown == Some(0) && !s.flipped && s.savedIndex == Some(0);
    index, studied, stats := s.currentIndex, s.studied, s.stats;
  }
}

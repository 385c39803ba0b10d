/**
 * The dashboard's pop-up notifications (`frontend/js/notifications.js`): a
 * queue of requested toasts and the list of toasts on screen, at most
 * `maxVisible` of them. Each toast shown gets a fresh number standing in
 * for the object identity the source filters on. The DOM, animation frames
 * and the auto-hide countdown are not modelled: hiding is an event.
 */
module Toasts {
  import opened Wrappers
  import Dashboard

  const DefaultMaxVisible := 3
  const DefaultAutoHide := 5000
  const Unknown := "Неизвестно"

  /** A `show` request waiting in the queue; texts may be missing. */
  datatype Request = Request(region: Option<string>, attack: Option<string>, kind: string)

  /** A toast on screen: its identity and the request it shows. */
  datatype Card = Card(id: nat, request: Request)

  /** What a card displays. */
  datatype View = View(kind: string, icon: string, attack: string, region: string,
                       color: string, status: string)

  datatype Manager = Manager(maxVisible: int, autoHide: int, queue: seq<Request>,
                             active: seq<Card>, next: nat)

  /** The raw type picks the card's style when it is a status code, else `default`. */
  function NormaliseType(raw: string): (kind: string)
    ensures raw in ["AC", "MD", "HD"] ==> kind == raw
    ensures raw !in ["AC", "MD", "HD"] ==> kind == "default"
  {
    if raw == "AC" || raw == "MD" || raw == "HD" then raw else "default"
  }

  /** JavaScript `text || fallback` on an optional string. */
  function OrElse(text: Option<string>, fallback: string): (r: string)
    ensures text.Some? && text.value != "" ==> r == text.value
    ensures text.None? || text.value == "" ==> r == fallback
  {
    if text.Some? && text.value != "" then text.value else fallback
  }

  /** `_createNotification`: the toast for one request gets the next identity. */
  function MakeCard(id: nat, q: Request): Card {
    Card(id, q)
  }

  /** The card's markup: the normalised type picks the style, icon, colour and
      status line; a missing or empty text reads as unknown. */
  function Render(q: Request): (v: View)
    ensures v.kind in ["AC", "MD", "HD", "default"]
    ensures v.attack != "" && v.region != "" && v.status != ""
    ensures q.attack.Some? && q.attack.value != "" ==> v.attack == q.attack.value
    ensures q.region.Some? && q.region.value != "" ==> v.region == q.region.value
  {
    var kind := NormaliseType(q.kind);
    View(kind, Dashboard.Icon(kind), OrElse(q.attack, Unknown), OrElse(q.region, Unknown),
         Dashboard.Color(kind), OrElse(Some(Dashboard.Caption(kind)), Dashboard.Unset))
  }

  /** A card's style, icon, colour and status line all follow from the
      severity code alone; any other type shows the neutral card. */
  lemma CardShowsSeverity(q: Request)
    ensures var c := Render(q);
      && (q.kind in ["AC", "MD", "HD"] ==>
            c.kind == q.kind && c.color != Dashboard.DefaultBlue && c.icon != "notifications"
            && c.status != Dashboard.Unset)
      && (q.kind !in ["AC", "MD", "HD"] ==>
            c.kind == "default" && c.color == Dashboard.DefaultBlue && c.icon == "notifications"
            && c.status == Dashboard.Unset)
  {
  }

  /** The cards for requests taken in order, numbered from `next` on. */
  function Cards(next: nat, qs: seq<Request>): (cs: seq<Card>)
    ensures |cs| == |qs|
    decreases |qs|
  {
    if |qs| == 0 then [] else [MakeCard(next, qs[0])] + Cards(next + 1, qs[1..])
  }

  /** The `i`-th card shows the `i`-th request under identity `next + i`. */
  lemma {:induction false} CardsAt(next: nat, qs: seq<Request>)
    ensures forall i :: 0 <= i < |qs| ==> Cards(next, qs)[i] == MakeCard(next + i, qs[i])
    decreases |qs|
  {
    if |qs| > 0 {
      CardsAt(next + 1, qs[1..]);
      forall i | 0 < i < |qs| ensures Cards(next, qs)[i] == MakeCard(next + i, qs[i]) {
        assert Cards(next, qs)[i] == Cards(next + 1, qs[1..])[i - 1];
      }
    }
  }

  /** Taking one more request puts its card in front of the others. */
  lemma CardsCons(next: nat, qs: seq<Request>, n: nat)
    requires n < |qs|
    ensures Cards(next, qs[..n + 1]) == [MakeCard(next, qs[0])] + Cards(next + 1, qs[1..][..n])
  {
    assert qs[..n + 1][1..] == qs[1..][..n];
  }

  /** How many requests `_processQueue` moves on screen: none when the screen
      is full, else as many as fit and are waiting. */
  function Room(m: Manager): nat {
    if |m.active| >= m.maxVisible then 0
    else if |m.queue| <= m.maxVisible - |m.active| then |m.queue|
    else m.maxVisible - |m.active|
  }

  /** `r` is `m` after the first `n` queued requests went on screen, in order. */
  predicate Displayed(m: Manager, r: Manager, n: nat) {
    && n <= |m.queue|
    && r.queue == m.queue[n..]
    && r.active == m.active + Cards(m.next, m.queue[..n])
    && r.next == m.next + n
    && r.maxVisible == m.maxVisible && r.autoHide == m.autoHide
  }

  /** Requests wait only while the screen is full. */
  predicate Settled(m: Manager) {
    |m.active| >= m.maxVisible || m.queue == []
  }

  /** The identities on screen increase in display order and are all below
      the counter, no more than `maxVisible` toasts are shown, and requests
      wait only while the screen is full. */
  predicate Good(m: Manager) {
    && Increasing(m.active)
    && (forall i :: 0 <= i < |m.active| ==> m.active[i].id < m.next)
    && |m.active| <= m.maxVisible
    && Settled(m)
  }

  /** `_processQueue`: move requests from the front of the queue to the end of
      the screen until the screen is full or the queue is empty. */
  function Process(m: Manager): (r: Manager)
    ensures Displayed(m, r, Room(m))
    ensures Settled(r)
    ensures |m.active| <= m.maxVisible ==> |r.active| <= m.maxVisible
    decreases |m.queue|
  {
    if |m.active| >= m.maxVisible || |m.queue| == 0 then
      assert m.queue[..0] == [];
      m
    else
      var q := m.queue[0];
      var m1 := m.(queue := m.queue[1..], active := m.active + [MakeCard(m.next, q)], next := m.next + 1);
      var r := Process(m1);
      var n := Room(m1);
      assert n + 1 == Room(m);
      CardsCons(m.next, m.queue, n);
      assert m.queue[1..][n..] == m.queue[n + 1..];
      assert m1.active + Cards(m1.next, m1.queue[..n]) == m.active + ([MakeCard(m.next, q)] + Cards(m.next + 1, m.queue[1..][..n]));
      r
  }

  /** Processing keeps the identities increasing and below the counter. */
  lemma ProcessKeepsIdentities(m: Manager)
    requires Increasing(m.active)
    requires forall i :: 0 <= i < |m.active| ==> m.active[i].id < m.next
    ensures var r := Process(m);
      && Increasing(r.active)
      && (forall i :: 0 <= i < |r.active| ==> r.active[i].id < r.next)
  {
    var n := Room(m);
    AppendCards(m.active, m.next, m.queue[..n]);
  }

  /** New cards numbered from the counter on may follow the screen. */
  lemma AppendCards(active: seq<Card>, next: nat, qs: seq<Request>)
    requires Increasing(active)
    requires forall i :: 0 <= i < |active| ==> active[i].id < next
    ensures Increasing(active + Cards(next, qs))
    ensures forall i :: 0 <= i < |active + Cards(next, qs)| ==> (active + Cards(next, qs))[i].id < next + |qs|
  {
    var added := Cards(next, qs);
    CardsAt(next, qs);
    var r := active + added;
    forall i | 0 <= i < |r| ensures r[i].id < next + |qs| && (i >= |active| ==> r[i].id == next + i - |active|) {
      if i >= |active| {
        assert r[i] == added[i - |active|];
      } else {
        assert r[i] == active[i];
      }
    }
    forall i, j | 0 <= i < j < |r| ensures r[i].id < r[j].id {
      if j < |active| {
        assert r[i] == active[i] && r[j] == active[j];
      } else if i < |active| {
        assert r[i] == active[i];
      }
    }
  }

  /** Processing twice is processing once. */
  lemma ProcessIdempotent(m: Manager)
    ensures Process(Process(m)) == Process(m)
  {
  }

  /** `show`: queue the request at the back, then process the queue. The
      request either reaches the screen, as its last toast, or waits at the
      back of the queue. */
  function Show(m: Manager, q: Request): (r: Manager)
    ensures r.queue != [] ==> r.queue[|r.queue| - 1] == q && |r.active| >= m.maxVisible
    ensures r.queue == [] ==> |r.active| > 0 && r.next > 0 && r.active[|r.active| - 1] == MakeCard(r.next - 1, q)
  {
    var m1 := m.(queue := m.queue + [q]);
    var r := Process(m1);
    CardsAt(m.next, m1.queue[..Room(m1)]);
    assert r.queue == [] ==> Room(m1) == |m1.queue| && m1.queue[..Room(m1)][|m1.queue| - 1] == q;
    r
  }

  /** On a well-formed manager the toast appears at once, at the end of the
      screen, when there is room, and otherwise everything stays as it was but
      the queue; either way the manager stays well-formed. */
  lemma ShowKeepsGood(m: Manager, q: Request)
    requires Good(m)
    ensures Good(Show(m, q))
    ensures |m.active| < m.maxVisible ==>
      Show(m, q).queue == [] && Show(m, q).active == m.active + [MakeCard(m.next, q)]
    ensures |m.active| >= m.maxVisible ==> Show(m, q) == m.(queue := m.queue + [q])
  {
    var m1 := m.(queue := m.queue + [q]);
    ProcessKeepsIdentities(m1);
    if |m.active| < m.maxVisible {
      assert m1.queue == [q] && Room(m1) == 1;
      assert m1.queue[..1] == [q];
    }
  }

  /** The screen without the toast whose identity is `id`, order kept. */
  function Without(active: seq<Card>, id: nat): (r: seq<Card>)
    ensures forall c :: c in r <==> c in active && c.id != id
    ensures |r| <= |active|
  {
    if |active| == 0 then []
    else if active[0].id == id then Without(active[1..], id)
    else
      var rest := Without(active[1..], id);
      assert forall c :: c in rest ==> c in active[1..];
      [active[0]] + rest
  }

  /** Identities increasing along the screen. */
  predicate Increasing(active: seq<Card>) {
    forall i, j :: 0 <= i < j < |active| ==> active[i].id < active[j].id
  }

  /** Removing toasts keeps the identities increasing. */
  lemma {:induction false} WithoutIncreasing(active: seq<Card>, id: nat)
    requires Increasing(active)
    ensures Increasing(Without(active, id))
    decreases |active|
  {
    if |active| > 0 {
      IncreasingTail(active);
      WithoutIncreasing(active[1..], id);
      if active[0].id != id {
        ConsIncreasing(active[0], Without(active[1..], id));
      }
    }
  }

  /** Behind the first toast come later identities, still increasing. */
  lemma IncreasingTail(active: seq<Card>)
    requires Increasing(active) && |active| > 0
    ensures Increasing(active[1..])
    ensures forall c :: c in active[1..] ==> active[0].id < c.id
  {
    var rest := active[1..];
    forall i, j | 0 <= i < j < |rest| ensures rest[i].id < rest[j].id {
      assert rest[i] == active[i + 1] && rest[j] == active[j + 1];
    }
    forall c | c in rest ensures active[0].id < c.id {
      var i :| 0 <= i < |rest| && rest[i] == c;
      assert rest[i] == active[i + 1];
    }
  }

  /** A toast with an identity below all others may go in front. */
  lemma ConsIncreasing(c: Card, w: seq<Card>)
    requires Increasing(w)
    requires forall d :: d in w ==> c.id < d.id
    ensures Increasing([c] + w)
  {
    var r := [c] + w;
    forall i, j | 0 <= i < j < |r| ensures r[i].id < r[j].id {
      assert r[j] == w[j - 1];
      if i > 0 {
        assert r[i] == w[i - 1];
      }
    }
  }

  /** Removing an identity that is not on screen changes nothing. */
  lemma {:induction false} WithoutAbsent(active: seq<Card>, id: nat)
    requires forall i :: 0 <= i < |active| ==> active[i].id != id
    ensures Without(active, id) == active
    decreases |active|
  {
    if |active| > 0 {
      WithoutAbsent(active[1..], id);
      assert [active[0]] + active[1..] == active;
    }
  }

  /** With increasing identities, removing one that is on screen removes one toast. */
  lemma {:induction false} WithoutOne(active: seq<Card>, id: nat)
    requires Increasing(active)
    requires exists i :: 0 <= i < |active| && active[i].id == id
    ensures |Without(active, id)| == |active| - 1
    decreases |active|
  {
    if active[0].id == id {
      assert forall i :: 0 <= i < |active[1..]| ==> active[1..][i].id != id by {
        forall i | 0 <= i < |active[1..]| ensures active[1..][i].id != id {
          assert active[1..][i] == active[i + 1];
        }
      }
      WithoutAbsent(active[1..], id);
    } else {
      IncreasingTail(active);
      var i :| 0 <= i < |active| && active[i].id == id;
      assert active[1..][i - 1] == active[i];
      WithoutOne(active[1..], id);
    }
  }

  /** `hide`, once the fade-out ends: the toast with that identity leaves the
      screen, every other toast stays, and the queue is processed again. */
  function Hide(m: Manager, id: nat): (r: Manager)
    ensures forall c :: c in m.active && c.id != id ==> c in r.active
    ensures Settled(r)
  {
    var m1 := m.(active := Without(m.active, id));
    var r := Process(m1);
    assert forall c :: c in m1.active ==> c in r.active;
    r
  }

  /** On a well-formed manager, hiding removes exactly the toasts with that
      identity: a request moved on screen gets a new identity. */
  lemma HideRemovesExactly(m: Manager, id: nat)
    requires Good(m)
    ensures forall c :: c in m.active ==> (c in Hide(m, id).active <==> c.id != id)
  {
    var m1 := m.(active := Without(m.active, id));
    var r := Hide(m, id);
    forall c | c in r.active && c in m.active ensures c.id != id {
      if c !in m1.active {
        var k :| 0 <= k < |r.active| && r.active[k] == c;
        var added := Cards(m1.next, m1.queue[..Room(m1)]);
        CardsAt(m1.next, m1.queue[..Room(m1)]);
      }
    }
  }

  /** Hiding keeps a manager well-formed. */
  lemma HideKeepsGood(m: Manager, id: nat)
    requires Good(m)
    ensures Good(Hide(m, id))
  {
    var m1 := m.(active := Without(m.active, id));
    forall i | 0 <= i < |m1.active| ensures m1.active[i].id < m1.next {
      assert m1.active[i] in m.active;
    }
    WithoutIncreasing(m.active, id);
    ProcessKeepsIdentities(m1);
    assert |m1.active| <= m.maxVisible;
    assert Hide(m, id) == Process(m1);
  }

  /** On a well-formed manager, hiding a toast on screen gives its place to
      the first waiting request, if any. */
  lemma HideRefills(m: Manager, id: nat)
    requires Good(m)
    requires exists i :: 0 <= i < |m.active| && m.active[i].id == id
    ensures var r := Hide(m, id);
      if m.queue == [] then r.queue == [] && |r.active| == |m.active| - 1
      else (r.queue == m.queue[1..] && |r.active| == |m.active|
        && r.active[|r.active| - 1] == MakeCard(m.next, m.queue[0]))
  {
    var m1 := m.(active := Without(m.active, id));
    WithoutOne(m.active, id);
    if m.queue != [] {
      assert Room(m1) == 1;
      assert m1.queue[..1] == [m.queue[0]];
    }
  }

  /** `new NotificationManager(container, options)`: an error without a
      container, else an empty manager with the options' limits or the defaults. */
  function New(hasContainer: bool, maxVisible: Option<int>, autoHide: Option<int>): (r: Result<Manager>)
    ensures r.Raises? <==> !hasContainer
    ensures r.Ok? ==> r.value.queue == [] && r.value.active == []
    ensures r.Ok? ==> r.value.maxVisible == (if maxVisible.Some? then maxVisible.value else DefaultMaxVisible)
    ensures r.Ok? ==> (Good(r.value) <==> r.value.maxVisible >= 0)
  {
    if !hasContainer then Raises("[NotificationManager] container element is required")
    else
      Ok(Manager(if maxVisible.Some? then maxVisible.value else DefaultMaxVisible,
                 if autoHide.Some? then autoHide.value else DefaultAutoHide, [], [], 0))
  }

  /** `showNotification`: ignored until the manager is initialised. */
  function ShowNotification(manager: Option<Manager>, q: Request): (r: Option<Manager>)
    ensures manager.None? <==> r.None?
    ensures manager.Some? ==> r == Some(Show(manager.value, q))
  {
    match manager
    case None => None
    case Some(m) => Some(Show(m, q))
  }

  /** Events the page delivers to the manager. */
  datatype Event = Shown(q: Request) | Hidden(id: nat)

  function Apply(m: Manager, e: Event): Manager {
    match e
    case Shown(q) => Show(m, q)
    case Hidden(id) => Hide(m, id)
  }

  function Run(m: Manager, events: seq<Event>): Manager
    decreases |events|
  {
    if |events| == 0 then m else Run(Apply(m, events[0]), events[1..])
  }

  /** From a fresh manager, whatever is shown and hidden, never more than
      `maxVisible` toasts are on screen and no request waits while there is room. */
  lemma {:induction false} NeverOverfull(m: Manager, events: seq<Event>)
    requires Good(m)
    ensures Good(Run(m, events))
    ensures |Run(m, events).active| <= m.maxVisible
    decreases |events|
  {
    if |events| > 0 {
      var m1 := Apply(m, events[0]);
      match events[0] {
        case Shown(q) => ShowKeepsGood(m, q);
        case Hidden(id) => HideKeepsGood(m, id);
      }
      NeverOverfull(m1, events[1..]);
    }
  }
}

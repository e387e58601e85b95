/** The demo slideshow: a cursor into a fixed, non-empty list of slides that
    moves forward on every timer tick or "next" click, backward on a "prev"
    click, and jumps to a position when one of the indicator dots is clicked. */
module Slideshow {
  import JsArith

  /** A static display record of the showcase. */
  datatype Slide = Slide(id: int, image: string, title: string, desc: string)

  /** The three slides, in display order. */
  const Slides: seq<Slide> := [
    Slide(1, "https://placehold.co/1200x800/101010/333?text=Lexora+Dashboard",
          "Pregledna nadzorna plo\U{0161}\U{010D}a",
          "Vsi va\U{0161}i primeri in dokumenti na enem mestu."),
    Slide(2, "https://placehold.co/1200x800/101010/333?text=AI+Chat+Interface",
          "Pametni klepet",
          "Postavljajte vpra\U{0161}anja in prejmite takoj\U{0161}nje odgovore."),
    Slide(3, "https://placehold.co/1200x800/101010/333?text=Legal+Analysis",
          "Analiza dokumentov",
          "Samodejno zaznavanje tveganj v pogodbah.")
  ]

  /** Number of slides; every index is taken modulo this. */
  const N: nat := |Slides|

  predicate ValidIndex(i: int) {
    0 <= i < N
  }

  /** The slide list is non-empty and its ids are distinct, so the modulus is
      well defined and each slide has its own rendering key. */
  lemma SlidesWellFormed()
    ensures N == 3
    ensures forall j, k :: 0 <= j < k < N ==> Slides[j].id != Slides[k].id
  {
  }

  /** The index the page starts on. */
  function InitialSlide(): (i: int)
    ensures ValidIndex(i)
    ensures Slides[i].id == 1
  {
    0
  }

  /** Advance by one, wrapping from the last slide to the first. The state is
      a JavaScript number, so the operation is given for every integer; from
      any non-negative index it lands back in range. */
  function Next(i: int): (r: int)
    ensures 0 <= i ==> ValidIndex(r)
    ensures ValidIndex(i) ==> r == if i == N - 1 then 0 else i + 1
  {
    JsArith.Rem(i + 1, N)
  }

  /** Step back by one, wrapping from the first slide to the last. */
  function Prev(i: int): (r: int)
    ensures 1 - N <= i ==> ValidIndex(r)
    ensures ValidIndex(i) ==> r == if i == 0 then N - 1 else i - 1
  {
    JsArith.Rem(i - 1 + N, N)
  }

  /** Next and Prev undo each other on every valid index. */
  lemma NextPrevInverse(i: int)
    requires ValidIndex(i)
    ensures Prev(Next(i)) == i
    ensures Next(Prev(i)) == i
  {
  }

  /** The index after k consecutive advances (k timer ticks, say). */
  function Advance(i: int, k: nat): (r: int)
    ensures ValidIndex(i) ==> ValidIndex(r)
    decreases k
  {
    if k == 0 then i else Next(Advance(i, k - 1))
  }

  /** k advances move the cursor k places round the ring. */
  lemma {:induction false} AdvanceIsRotation(i: int, k: nat)
    requires ValidIndex(i)
    ensures Advance(i, k) == (i + k) % N
    decreases k
  {
    if k > 0 {
      AdvanceIsRotation(i, k - 1);
      var m := (i + k - 1) % N;
      assert i + k - 1 == ((i + k - 1) / N) * N + m;
      if m == N - 1 {
        assert i + k == ((i + k - 1) / N + 1) * N;
      } else {
        assert i + k == ((i + k - 1) / N) * N + (m + 1);
      }
    }
  }

  /** N advances return to the starting slide. */
  lemma FullCycle(i: int)
    requires ValidIndex(i)
    ensures Advance(i, N) == i
  {
    AdvanceIsRotation(i, N);
    assert (i + N) % N == i;
  }

  /** The positions the indicator dots carry: one per slide, obtained by
      enumerating the slide list. */
  function Indicators(slides: seq<Slide>): (r: seq<int>)
    ensures |r| == |slides|
    ensures forall k :: 0 <= k < |r| ==> r[k] == k
    decreases |slides|
  {
    if slides == [] then [] else Indicators(slides[..|slides| - 1]) + [|slides| - 1]
  }

  /** The user and timer events that move the cursor. */
  datatype Nav = Tick | NextClicked | PrevClicked | DotClicked(dot: nat)

  /** A dot click names one of the rendered dots. */
  predicate Rendered(e: Nav) {
    e.DotClicked? ==> e.dot < |Indicators(Slides)|
  }

  /** One event: a tick or the right arrow advances, the left arrow steps
      back, and a dot sets the cursor to that dot's position. */
  function Step(current: int, e: Nav): (r: int)
    requires Rendered(e)
    ensures ValidIndex(current) ==> ValidIndex(r)
    ensures ValidIndex(current) && (e.Tick? || e.NextClicked?) ==> r == (current + 1) % N
    ensures ValidIndex(current) && e.PrevClicked? ==> r == (current + N - 1) % N
    ensures e.DotClicked? ==> r == e.dot && ValidIndex(r)
  {
    match e
    case Tick => Next(current)
    case NextClicked => Next(current)
    case PrevClicked => Prev(current)
    case DotClicked(dot) => Indicators(Slides)[dot]
  }

  /** The cursor after a whole sequence of events. */
  function Run(current: int, events: seq<Nav>): (r: int)
    requires forall k :: 0 <= k < |events| ==> Rendered(events[k])
    ensures ValidIndex(current) ==> ValidIndex(r)
    decreases |events|
  {
    if events == [] then current
    else Run(Step(current, events[0]), events[1..])
  }

  /** Starting from the page's initial slide, no sequence of ticks, arrow
      clicks and dot clicks ever leaves the slide range. */
  lemma NeverOutOfRange(events: seq<Nav>)
    requires forall k :: 0 <= k < |events| ==> Rendered(events[k])
    ensures ValidIndex(Run(InitialSlide(), events))
  {
  }

  /** A run of k timer ticks with no clicks in between is k advances, so it
      rotates the cursor by k. */
  lemma {:induction false} TicksAreAdvances(i: int, k: nat)
    requires ValidIndex(i)
    ensures Run(i, seq(k, _ => Tick)) == Advance(i, k)
    ensures Run(i, seq(k, _ => Tick)) == (i + k) % N
    decreases k
  {
    AdvanceIsRotation(i, k);
    if k > 0 {
      var ticks := seq(k, _ => Tick);
      assert ticks[1..] == seq(k - 1, _ => Tick);
      TicksAreAdvances(Next(i), k - 1);
      assert Run(i, ticks) == Run(Next(i), ticks[1..]);
      if i == N - 1 {
        assert (0 + (k - 1)) % N == (i + k) % N by {
          assert i + k == (k - 1) + N;
        }
      }
    }
  }
}

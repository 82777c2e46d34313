/** The guest-testimonials carousel: a fixed, non-empty list of review
    records and a current index into it, moved by an auto-advance timer,
    the previous/next arrow buttons and one dot button per record. */
module Carousel {
  import Modular

  /** One guest review, as statically defined when the section mounts. The
      review body is looked up by id (`ReviewText`), so that reasoning about
      the list never has to unfold the long texts. */
  datatype Testimonial = Testimonial(
    id: nat,
    name: string,
    location: string,
    rating: int,
    image: string,
    experience: string
  )

  const Placeholder: string := "/api/placeholder/80/80"

  /** The five records the section shows, in display order. */
  function Testimonials(): seq<Testimonial>
  {
    [ Testimonial(1, "Rajesh & Priya Sharma", "Bangalore", 5, Placeholder,
        "Anniversary Celebration"),
      Testimonial(2, "Michael & Sarah Johnson", "London, UK", 5, Placeholder,
        "International Vacation"),
      Testimonial(3, "Dr. Anitha Reddy", "Hyderabad", 5, Placeholder,
        "Solo Retreat"),
      Testimonial(4, "The Kumar Family", "Chennai", 5, Placeholder,
        "Family Vacation"),
      Testimonial(5, "James & Emma Wilson", "Melbourne, Australia", 5, Placeholder,
        "Honeymoon")
    ]
  }

  /** The body text of the review with the given id. */
  function ReviewText(id: nat): string
  {
    if id == 1 then
      "J&L Kabini Palace exceeded all our expectations. The perfect blend of luxury and nature made our anniversary unforgettable. The staff's attention to detail and the serene environment created memories we'll treasure forever."
    else if id == 2 then
      "As international travelers, we've stayed at many resorts, but Kabini Palace is truly special. The authentic farm-style experience combined with luxury amenities gave us the perfect insight into Karnataka's natural beauty."
    else if id == 3 then
      "The tranquility here is therapeutic. After months of busy hospital schedules, this resort provided the perfect escape. The morning walks by the pond and forest trekking refreshed my soul completely."
    else if id == 4 then
      "Our children had the time of their lives! The jeep safari was thrilling, and the natural pond was their favorite spot. It's rare to find a place that caters perfectly to both adults and children."
    else if id == 5 then
      "We came for our honeymoon and were blown away by the romantic ambiance. The Empress Suite with its jacuzzi overlooking the forest was magical. The sunset dinners by the pond were absolutely perfect."
    else ""
  }

  /** A record list the carousel can rotate through: non-empty, identifiers
      are the 1-based positions (hence unique), ratings are 1 to 5 stars. */
  predicate WellFormedRecords(ts: seq<Testimonial>)
  {
    && |ts| > 0
    && (forall k :: 0 <= k < |ts| ==> ts[k].id == k + 1)
    && (forall k :: 0 <= k < |ts| ==> 1 <= ts[k].rating <= 5)
  }

  /** The shipped list has five records and is well formed. */
  lemma TestimonialsWellFormed()
    ensures |Testimonials()| == 5
    ensures WellFormedRecords(Testimonials())
  {
  }

  /** The carousel's state. The index is a JavaScript number, so it is an
      `int` here; `Valid` is the bound the transitions keep. */
  datatype Carousel = Carousel(records: seq<Testimonial>, index: int)

  predicate Valid(c: Carousel)
  {
    0 <= c.index < |c.records|
  }

  /** State on mount: the shipped list, showing its first record. */
  function Mount(): (c: Carousel)
    ensures Valid(c) && c.index == 0
    ensures c.records == Testimonials()
    ensures WellFormedRecords(c.records) && |c.records| == 5
  {
    TestimonialsWellFormed();
    Carousel(Testimonials(), 0)
  }

  /** The right-arrow button: one step forward, wrapping from the last
      record to the first. */
  function Next(c: Carousel): (r: Carousel)
    ensures r.records == c.records
    ensures Valid(c) ==> Valid(r) && r.index == (c.index + 1) % |c.records|
  {
    c.(index := if c.index == |c.records| - 1 then 0 else c.index + 1)
  }

  /** The left-arrow button: one step back, wrapping from the first record
      to the last. */
  function Prev(c: Carousel): (r: Carousel)
    ensures r.records == c.records
    ensures Valid(c) ==> Valid(r) && r.index == (c.index + |c.records| - 1) % |c.records|
  {
    c.(index := if c.index == 0 then |c.records| - 1 else c.index - 1)
  }

  /** The interval callback, written as the functional state update the
      timer passes; it computes the same successor as the arrow button. */
  function AutoAdvance(c: Carousel): (r: Carousel)
    ensures r == Next(c)
  {
    c.(index := if c.index == |c.records| - 1 then 0 else c.index + 1)
  }

  /** A dot button: jump straight to the given index. */
  function GoTo(c: Carousel, i: int): (r: Carousel)
    ensures r.records == c.records && r.index == i
    ensures Valid(r) <==> 0 <= i < |c.records|
  {
    c.(index := i)
  }

  /** The events that move the carousel, delivered one at a time. */
  datatype Event = TimerTick | NextButton | PrevButton | DotButton(dot: int)

  function Step(c: Carousel, e: Event): Carousel
  {
    match e
    case TimerTick => AutoAdvance(c)
    case NextButton => Next(c)
    case PrevButton => Prev(c)
    case DotButton(i) => GoTo(c, i)
  }

  /** Dot buttons exist only for the indices of the records, so every dot
      event a user can produce carries one of them. */
  predicate DotsInRange(n: nat, es: seq<Event>)
  {
    forall k :: 0 <= k < |es| ==> es[k].DotButton? ==> 0 <= es[k].dot < n
  }

  /** Deliver the events in order. The record list is never changed, and
      the index bound holds after every run of events a user can produce. */
  function Run(c: Carousel, es: seq<Event>): (r: Carousel)
    ensures r.records == c.records
    ensures Valid(c) && DotsInRange(|c.records|, es) ==> Valid(r)
    decreases |es|
  {
    if es == [] then c
    else
      assert DotsInRange(|c.records|, es) ==> DotsInRange(|c.records|, es[1..]) by {
        if DotsInRange(|c.records|, es) {
          forall k | 0 <= k < |es[1..]| ensures es[1..][k].DotButton? ==> 0 <= es[1..][k].dot < |c.records| {
            assert es[1..][k] == es[k + 1];
          }
        }
      }
      Run(Step(c, es[0]), es[1..])
  }

  /** `Next` and `Prev` undo each other on every valid state. */
  lemma PrevNextInverse(c: Carousel)
    requires Valid(c)
    ensures Prev(Next(c)) == c
    ensures Next(Prev(c)) == c
  {
  }

  /** `k` presses of the right-arrow button (or `k` timer ticks). */
  function Advance(c: Carousel, k: nat): Carousel
    decreases k
  {
    if k == 0 then c else Advance(Next(c), k - 1)
  }

  /** `k` presses of the left-arrow button. */
  function Retreat(c: Carousel, k: nat): Carousel
    decreases k
  {
    if k == 0 then c else Retreat(Prev(c), k - 1)
  }

  /** After `k` steps forward the index is `k` places on, modulo the
      number of records. */
  lemma {:induction false} AdvanceModular(c: Carousel, k: nat)
    requires Valid(c)
    ensures Valid(Advance(c, k))
    ensures Advance(c, k).records == c.records
    ensures Advance(c, k).index == (c.index + k) % |c.records|
    decreases k
  {
    var n := |c.records|;
    if k == 0 {
      Modular.ModUnique(c.index, n, 0, c.index);
    } else {
      AdvanceModular(Next(c), k - 1);
      Modular.ModAddLeft(c.index + 1, k - 1, n);
    }
  }

  /** After `k` steps back the index is `k` places back, modulo the number
      of records (Euclidean `%`, so never negative). */
  lemma {:induction false} RetreatModular(c: Carousel, k: nat)
    requires Valid(c)
    ensures Valid(Retreat(c, k))
    ensures Retreat(c, k).records == c.records
    ensures Retreat(c, k).index == (c.index - k) % |c.records|
    decreases k
  {
    var n := |c.records|;
    if k == 0 {
      Modular.ModUnique(c.index, n, 0, c.index);
    } else {
      RetreatModular(Prev(c), k - 1);
      Modular.ModAddLeft(c.index + n - 1, -(k - 1), n);
      Modular.ModAddPeriod(c.index - k, n);
    }
  }

  /** Going forward once per record, or back once per record, brings the
      carousel back to where it started. */
  lemma FullCycle(c: Carousel)
    requires Valid(c)
    ensures Advance(c, |c.records|) == c
    ensures Retreat(c, |c.records|) == c
  {
    FullCycleForward(c);
    FullCycleBackward(c);
  }

  lemma FullCycleForward(c: Carousel)
    requires Valid(c)
    ensures Advance(c, |c.records|) == c
  {
    var n := |c.records|;
    var a := Advance(c, n);
    AdvanceModular(c, n);
    Modular.ModUnique(c.index + n, n, 1, c.index);
    assert a.index == c.index && a.records == c.records;
  }

  lemma FullCycleBackward(c: Carousel)
    requires Valid(c)
    ensures Retreat(c, |c.records|) == c
  {
    var n := |c.records|;
    var b := Retreat(c, n);
    RetreatModular(c, n);
    Modular.ModUnique(c.index - n, n, -1, c.index);
    assert b.index == c.index && b.records == c.records;
  }

  /** From the first record, `k` steps back land on index
      `(N - k mod N) mod N` for `N` records. */
  lemma RetreatFromFirst(c: Carousel, k: nat)
    requires Valid(c) && c.index == 0
    ensures Retreat(c, k).index == (|c.records| - k % |c.records|) % |c.records|
  {
    var n := |c.records|;
    RetreatModular(c, k);
    assert 0 - k == (n - k % n) + (-(k / n) - 1) * n;
    Modular.ModAddMultiple(n - k % n, -(k / n) - 1, n);
  }

  /** `k` timer ticks with no user input. */
  function Ticks(k: nat): (es: seq<Event>)
    ensures |es| == k
    ensures forall j :: 0 <= j < k ==> es[j] == TimerTick
  {
    seq(k, _ => TimerTick)
  }

  /** With no user interaction the index advances by exactly one record per
      timer interval: from mount, after `k` ticks it is `k` modulo the
      number of records. */
  lemma {:induction false} TicksAdvance(c: Carousel, k: nat)
    ensures Run(c, Ticks(k)) == Advance(c, k)
    decreases k
  {
    if k > 0 {
      assert Ticks(k)[0] == TimerTick;
      assert Ticks(k)[1..] == Ticks(k - 1);
      TicksAdvance(Next(c), k - 1);
    }
  }

  /** From mount, with no user input, `k` ticks show record `k mod 5`. */
  lemma TicksFromMount(k: nat)
    ensures Run(Mount(), Ticks(k)).index == k % 5
  {
    TicksAdvance(Mount(), k);
    AdvanceModular(Mount(), k);
  }

  /** Which dot is highlighted: dot `k` is active exactly when `k` is the
      current index. */
  function Dots(c: Carousel): (ds: seq<bool>)
    ensures |ds| == |c.records|
    ensures forall k :: 0 <= k < |ds| ==> (ds[k] <==> k == c.index)
  {
    seq(|c.records|, k => k == c.index)
  }

  /** In a valid state exactly one dot is active. */
  lemma ExactlyOneDotActive(c: Carousel)
    requires Valid(c)
    ensures (set k | 0 <= k < |Dots(c)| && Dots(c)[k]) == {c.index}
    ensures |set k | 0 <= k < |Dots(c)| && Dots(c)[k]| == 1
  {
    var ds := Dots(c);
    var active := set k | 0 <= k < |ds| && ds[k];
    assert c.index in active;
    assert active == {c.index};
  }

  /** The record on display. In a well-formed list it is the record whose
      id is one more than the index, and no other record has that id. */
  function Current(c: Carousel): (t: Testimonial)
    requires Valid(c)
    ensures t in c.records
    ensures WellFormedRecords(c.records) ==> t.id == c.index + 1
    ensures WellFormedRecords(c.records) ==>
      forall k :: 0 <= k < |c.records| && c.records[k].id == t.id ==> k == c.index
  {
    c.records[c.index]
  }

  /** The quoted body of the record on display: in a well-formed list, the
      review text of id `index + 1`. */
  function CurrentText(c: Carousel): (text: string)
    requires Valid(c)
    ensures WellFormedRecords(c.records) ==> text == ReviewText(c.index + 1)
  {
    ReviewText(Current(c).id)
  }

  /** With no user input, after `k` ticks from mount the card shows the
      shipped record at position `k mod 5`, whose id is `k mod 5 + 1`. */
  lemma CurrentAfterTicks(k: nat)
    ensures Valid(Run(Mount(), Ticks(k)))
    ensures Current(Run(Mount(), Ticks(k))) == Testimonials()[k % 5]
    ensures Current(Run(Mount(), Ticks(k))).id == k % 5 + 1
  {
    TicksFromMount(k);
    TicksAdvance(Mount(), k);
    AdvanceModular(Mount(), k);
  }

  /** How many stars are drawn: one per point of the displayed rating,
      which for a well-formed list is between one and five. */
  function StarCount(c: Carousel): (stars: nat)
    requires Valid(c) && WellFormedRecords(c.records)
    ensures 1 <= stars <= 5
    ensures stars == Current(c).rating
  {
    c.records[c.index].rating
  }
}

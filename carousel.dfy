/** The portfolio carousel of `initPortfolioSlider` in
    QbixSolutions/static/js/main.js, reduced to its index machine.

    The slider shows `n` original portfolio items, padded on each side with
    `CloneCount(ipv)` clones so that it can move past either end; a move
    shifts `index` by one and takes the transition lock, and the callback
    the move schedules 600 ms later (here the `Settle*` event) snaps the
    index back into the originals when it has entered the clones and
    releases the lock. Pixel offsets are not modelled: the index is the
    slider's position. */
module Carousel {
  import opened Wrappers

  /** `updateItemsPerView`: how many items fit a viewport `width` pixels wide. */
  function ItemsPerView(width: int): (v: int)
    ensures 1 <= v <= 4
    ensures v == 4 <==> 1280 <= width
    ensures v == 3 <==> 1024 <= width < 1280
    ensures v == 2 <==> 768 <= width < 1024
    ensures v == 1 <==> width < 768
  {
    if width >= 1280 then 4
    else if width >= 1024 then 3
    else if width >= 768 then 2
    else 1
  }

  /** A wider viewport never shows fewer items. */
  lemma ItemsPerViewMonotone(w1: int, w2: int)
    requires w1 <= w2
    ensures ItemsPerView(w1) <= ItemsPerView(w2)
  {
  }

  /** `Math.max(itemsPerView * 2, 4)`: at least two full views of clones on
      each side, and never fewer than four. */
  function CloneCount(ipv: int): (c: nat)
    ensures c >= 4 && c >= 2 * ipv
    ensures c == 4 || c == 2 * ipv
  {
    if ipv * 2 > 4 then ipv * 2 else 4
  }

  /** A slide: which original item it shows, and whether it is a clone. */
  datatype Slide = Slide(item: nat, clone: bool)

  /** The slides without class `clone`, in order (`getOriginalItems`). */
  function Originals(s: seq<Slide>): (r: seq<Slide>)
    ensures |r| <= |s|
    ensures forall x :: x in r <==> x in s && !x.clone
  {
    if s == [] then [] else (if s[0].clone then [] else [s[0]]) + Originals(s[1..])
  }

  lemma {:induction false} OriginalsAppend(a: seq<Slide>, b: seq<Slide>)
    ensures Originals(a + b) == Originals(a) + Originals(b)
  {
    if a == [] {
      assert a + b == b;
    } else {
      assert (a + b)[0] == a[0];
      assert (a + b)[1..] == a[1..] + b;
      OriginalsAppend(a[1..], b);
    }
  }

  lemma {:induction false} OriginalsOfClones(s: seq<Slide>)
    requires forall k :: 0 <= k < |s| ==> s[k].clone
    ensures Originals(s) == []
  {
    if s != [] {
      OriginalsOfClones(s[1..]);
    }
  }

  lemma {:induction false} OriginalsOfOriginals(s: seq<Slide>)
    requires forall k :: 0 <= k < |s| ==> !s[k].clone
    ensures Originals(s) == s
  {
    if s != [] {
      OriginalsOfOriginals(s[1..]);
      assert s == [s[0]] + s[1..];
    }
  }

  /** The `n` original items, in document order. */
  function Items(n: nat): (r: seq<Slide>)
    ensures |r| == n
    ensures forall k :: 0 <= k < n ==> r[k] == Slide(k, false)
  {
    seq(n, k requires 0 <= k => Slide(k, false))
  }

  /** The clone `setupInfiniteLoop` puts at prefix position `j` (of item
      `n - 1 - j % n`). */
  function PrefixClone(n: nat, j: nat): Slide
    requires n > 0
  {
    Slide(n - 1 - j % n, true)
  }

  /** The clone at suffix position `i` (of item `i % n`). */
  function SuffixClone(n: nat, i: nat): Slide
    requires n > 0
  {
    Slide(i % n, true)
  }

  function PrefixClones(n: nat, c: nat): (r: seq<Slide>)
    requires n > 0
    ensures |r| == c && forall j :: 0 <= j < c ==> r[j] == PrefixClone(n, j)
  {
    seq(c, j requires 0 <= j => PrefixClone(n, j))
  }

  function SuffixClones(n: nat, c: nat): (r: seq<Slide>)
    requires n > 0
    ensures |r| == c && forall i :: 0 <= i < c ==> r[i] == SuffixClone(n, i)
  {
    seq(c, i requires 0 <= i => SuffixClone(n, i))
  }

  lemma SuffixClonesSnoc(n: nat, i: nat)
    requires n > 0
    ensures SuffixClones(n, i + 1) == SuffixClones(n, i) + [SuffixClone(n, i)]
  {
  }

  /** Prepending clone `i` to the prefix clones from `i + 1` on gives those
      from `i` on. */
  lemma PrefixClonesStep(n: nat, c: nat, i: nat, rest: seq<Slide>)
    requires n > 0 && i < c
    ensures [Slide(Items(n)[n - 1 - i % n].item, true)] + (PrefixClones(n, c)[i + 1..] + rest)
         == PrefixClones(n, c)[i..] + rest
  {
    var p := PrefixClones(n, c);
    assert p[i..] == [p[i]] + p[i + 1..];
  }

  /** The padded list is the prefix clones followed by what the first loop built. */
  lemma PaddedParts(n: nat, c: nat)
    requires n > 0
    ensures Padded(n, c) == PrefixClones(n, c)[0..] + (Items(n) + SuffixClones(n, c))
  {
    assert PrefixClones(n, c)[0..] == PrefixClones(n, c);
  }

  /** The slide list `setupInfiniteLoop` builds from `n > 0` items with `c`
      clones on each side. */
  function Padded(n: nat, c: nat): (r: seq<Slide>)
    requires n > 0
    ensures |r| == n + 2 * c
    ensures forall p :: 0 <= p < c ==> r[p] == Slide(n - 1 - p % n, true)
    ensures forall p :: c <= p < c + n ==> r[p] == Slide(p - c, false)
    ensures forall p :: c + n <= p < n + 2 * c ==> r[p] == Slide((p - c - n) % n, true)
  {
    PrefixClones(n, c) + Items(n) + SuffixClones(n, c)
  }

  /** Removing the clones of a padded list gives back the originals. */
  lemma OriginalsOfPadded(n: nat, c: nat)
    requires n > 0
    ensures Originals(Padded(n, c)) == Items(n)
  {
    OriginalsAppend(PrefixClones(n, c) + Items(n), SuffixClones(n, c));
    OriginalsAppend(PrefixClones(n, c), Items(n));
    OriginalsOfClones(PrefixClones(n, c));
    OriginalsOfClones(SuffixClones(n, c));
    OriginalsOfOriginals(Items(n));
  }

  /** The prepended clones run in reverse: the slide just before the first
      original shows the last original only when `n` divides `c - 1`. The
      snap from `c - 1` to `c + n - 1` after a backward move therefore
      changes the picture in every other case (for six items on a narrow
      screen, `c` is 4 and the slide before the first item shows item 2,
      not item 5). */
  lemma PrefixSeamlessIff(n: nat, c: nat)
    requires n > 0 && c > 0
    ensures Padded(n, c)[c - 1].item == Padded(n, c)[c + n - 1].item <==> (c - 1) % n == 0
  {
  }

  /** Where `SettleNext` leaves the index: past the last original it snaps to
      the first original. */
  function SnapAfterNext(index: int, c: nat, n: nat): (r: int)
    ensures index >= c + n ==> r == c
    ensures index < c + n ==> r == index
  {
    if index >= c + n then c else index
  }

  /** Where `SettlePrev` leaves the index: before the first original it snaps
      to the last original. */
  function SnapAfterPrev(index: int, c: nat, n: nat): (r: int)
    ensures index < c ==> r == c + n - 1
    ensures index >= c ==> r == index
  {
    if index < c then c + n - 1 else index
  }

  /** A completed forward move from a settled index: it advances by one within
      the originals, wrapping from the last to the first. */
  function Advance(index: int, c: nat, n: nat): (r: int)
    requires n > 0 && c <= index < c + n
    ensures c <= r < c + n
    ensures r == c + (index - c + 1) % n
  {
    SnapAfterNext(index + 1, c, n)
  }

  /** A completed backward move from a settled index. */
  function Retreat(index: int, c: nat, n: nat): (r: int)
    requires n > 0 && c <= index < c + n
    ensures c <= r < c + n
    ensures r == c + (index - c + n - 1) % n
  {
    SnapAfterPrev(index - 1, c, n)
  }

  /** `k` completed forward moves. */
  function AdvanceTimes(index: int, c: nat, n: nat, k: nat): (r: int)
    requires n > 0 && c <= index < c + n
    ensures c <= r < c + n
  {
    if k == 0 then index else Advance(AdvanceTimes(index, c, n, k - 1), c, n)
  }

  /** `k` forward moves advance the settled index by `k` modulo `n`. */
  lemma {:induction false} AdvanceTimesMod(index: int, c: nat, n: nat, k: nat)
    requires n > 0 && c <= index < c + n
    ensures AdvanceTimes(index, c, n, k) == c + (index - c + k) % n
  {
    if k > 0 {
      var prev := AdvanceTimes(index, c, n, k - 1);
      assert AdvanceTimes(index, c, n, k) == Advance(prev, c, n);
      AdvanceTimesMod(index, c, n, k - 1);
      AdvanceStep(prev, c, n, index - c + k - 1);
    }
  }

  /** One more forward move from the index `m` steps past the first original
      (modulo `n`) lands `m + 1` steps past it. */
  lemma AdvanceStep(prev: int, c: nat, n: nat, m: nat)
    requires n > 0 && prev == c + m % n
    ensures Advance(prev, c, n) == c + (m + 1) % n
  {
    ModSucc(m, n);
  }

  lemma ModSucc(m: nat, n: nat)
    requires n > 0
    ensures (m % n + 1) % n == (m + 1) % n
  {
    var q, r := m / n, m % n;
    assert m == q * n + r;
    if r + 1 == n {
      ModUnique(m + 1, n, q + 1, 0);
      ModUnique(r + 1, n, 1, 0);
    } else {
      ModUnique(m + 1, n, q, r + 1);
      ModUnique(r + 1, n, 0, r + 1);
    }
  }

  /** The remainder is the unique `r` in `[0, n)` with `x == q * n + r`. */
  lemma ModUnique(x: int, n: int, q: int, r: int)
    requires n > 0 && 0 <= r < n && x == q * n + r
    ensures x % n == r
  {
    var d := q - x / n;
    assert x == (x / n) * n + x % n;
    assert d * n == x % n - r;
    assert -n < d * n < n;
  }

  /** Cyclic return: `n` completed forward moves come back to the start. */
  lemma AdvanceFullCycle(index: int, c: nat, n: nat)
    requires n > 0 && c <= index < c + n
    ensures AdvanceTimes(index, c, n, n) == index
  {
    AdvanceTimesMod(index, c, n, n);
    ModUnique(index - c + n, n, 1, index - c);
  }

  /** A completed backward move undoes a completed forward move, and the
      other way round. */
  lemma AdvanceRetreatInverse(index: int, c: nat, n: nat)
    requires n > 0 && c <= index < c + n
    ensures Retreat(Advance(index, c, n), c, n) == index
    ensures Advance(Retreat(index, c, n), c, n) == index
  {
  }

  /** `handleSwipe`: a horizontal swipe longer than 50 px moves the slider;
      a leftward one (the finger ends left of where it started) forward. */
  function SwipeMove(startX: real, endX: real): (m: Option<Move>)
    ensures m == Some(Forward) <==> startX - endX > 50.0
    ensures m == Some(Backward) <==> endX - startX > 50.0
    ensures m == None <==> -50.0 <= endX - startX <= 50.0
  {
    if startX - endX > 50.0 then Some(Forward)
    else if endX - startX > 50.0 then Some(Backward)
    else None
  }

  /** Mirroring a swipe mirrors its move. */
  lemma SwipeSymmetric(startX: real, endX: real)
    ensures SwipeMove(startX, endX) == Some(Forward) <==> SwipeMove(endX, startX) == Some(Backward)
  {
  }

  datatype Move = Forward | Backward

  /** The state `initPortfolioSlider` keeps in its closure: the slider's
      children, `currentIndex`, `itemsPerView` and `isTransitioning`, and
      the settle callback scheduled by the last move. */
  class PortfolioSlider {
    const n: nat
    var slides: seq<Slide>
    var index: int
    var ipv: int
    var locked: bool
    var pending: Option<Move>

    /** The clones match the current items-per-view, the lock is held exactly
        while a settle callback is pending, and the index is among the
        originals when settled and at most one step outside them otherwise. */
    ghost predicate Valid()
      reads this
    {
      1 <= ipv <= 4 &&
      (locked <==> pending.Some?) &&
      (n == 0 ==> slides == []) &&
      (n > 0 ==>
        var c := CloneCount(ipv);
        slides == Padded(n, c) &&
        match pending
        case None => c <= index < c + n
        case Some(Forward) => c <= index <= c + n
        case Some(Backward) => c - 1 <= index < c + n)
    }

    /** The index always addresses a slide of the padded list. */
    lemma IndexAddressesSlide()
      requires Valid() && n > 0
      ensures 0 <= index < |slides|
    {
    }

    /** Lines 729-732, 926-927: the closure's initial values, then
        `updateItemsPerView()` and `setupInfiniteLoop()`. The slider starts
        with its `n` original items. */
    constructor (n: nat, width: int)
      ensures Valid() && this.n == n
      ensures ipv == ItemsPerView(width) && !locked
      ensures n == 0 ==> index == 0
      ensures n > 0 ==> index == CloneCount(ipv)
    {
      this.n := n;
      slides := Items(n);
      index := 0;
      ipv := 1;
      locked := false;
      pending := None;
      new;
      OriginalsOfOriginals(Items(n));
      UpdateItemsPerView(width);
      SetupInfiniteLoop();
    }

    /** `updateItemsPerView()`. */
    method UpdateItemsPerView(width: int)
      modifies this`ipv
      ensures ipv == ItemsPerView(width)
    {
      if width >= 1280 {
        ipv := 4;
      } else if width >= 1024 {
        ipv := 3;
      } else if width >= 768 {
        ipv := 2;
      } else {
        ipv := 1;
      }
    }

    /** `setupInfiniteLoop()`: removes the old clones, then (with at least one
        item) appends and prepends `CloneCount(ipv)` clones and moves to the
        first original. With no items it stops after removing the clones. */
    method SetupInfiniteLoop()
      requires 1 <= ipv <= 4 && (locked <==> pending.Some?)
      requires Originals(slides) == Items(n)
      modifies this`slides, this`index
      ensures Valid()
      ensures n == 0 ==> slides == [] && index == old(index)
      ensures n > 0 ==> slides == Padded(n, CloneCount(ipv)) && index == CloneCount(ipv)
    {
      slides := Originals(slides);
      var items := slides;
      var itemCount := |items|;
      if itemCount == 0 {
        return;
      }
      var clonesToCreate := CloneCount(ipv);
      AppendClones(items, clonesToCreate);
      PrependClones(items, clonesToCreate);
      index := clonesToCreate;
    }

    /** The first loop of `setupInfiniteLoop`: append `c` clones, clone `i`
        copying item `i % n`. */
    method AppendClones(items: seq<Slide>, c: nat)
      requires n > 0 && items == Items(n) && slides == items
      modifies this`slides
      ensures slides == items + SuffixClones(n, c)
    {
      var itemCount := |items|;
      for i := 0 to c
        invariant slides == items + SuffixClones(n, i)
      {
        slides := slides + [Slide(items[i % itemCount].item, true)];
        SuffixClonesSnoc(n, i);
      }
    }

    /** The second loop: prepend `c` clones, from `i = c - 1` down to 0, clone
        `i` copying item `n - 1 - i % n`, each inserted before the first child. */
    method PrependClones(items: seq<Slide>, c: nat)
      requires n > 0 && items == Items(n) && slides == items + SuffixClones(n, c)
      modifies this`slides
      ensures slides == Padded(n, c)
    {
      var itemCount := |items|;
      ghost var rest := slides;
      ghost var prefix := PrefixClones(n, c);
      for i := c downto 0
        invariant slides == prefix[i..] + rest
      {
        var clone := Slide(items[itemCount - 1 - i % itemCount].item, true);
        slides := [clone] + slides;
        PrefixClonesStep(n, c, i, rest);
      }
      PaddedParts(n, c);
    }

    /** `nextSlide()`: ignored while the lock is held; otherwise takes the
        lock, moves one slide forward and schedules the settle callback. */
    method StartNext()
      requires Valid()
      modifies this`index, this`locked, this`pending
      ensures Valid()
      ensures old(locked) ==> index == old(index) && locked && pending == old(pending)
      ensures !old(locked) ==> index == old(index) + 1 && locked && pending == Some(Forward)
    {
      if locked {
        return;
      }
      locked := true;
      index := index + 1;
      pending := Some(Forward);
    }

    /** `prevSlide()`: as `StartNext`, one slide backward. */
    method StartPrev()
      requires Valid()
      modifies this`index, this`locked, this`pending
      ensures Valid()
      ensures old(locked) ==> index == old(index) && locked && pending == old(pending)
      ensures !old(locked) ==> index == old(index) - 1 && locked && pending == Some(Backward)
    {
      if locked {
        return;
      }
      locked := true;
      index := index - 1;
      pending := Some(Backward);
    }

    /** The callback `nextSlide` schedules, 600 ms later: past the last
        original, jump to the first one; release the lock. */
    method SettleNext()
      requires Valid() && pending == Some(Forward)
      modifies this`index, this`locked, this`pending
      ensures Valid() && !locked
      ensures index == SnapAfterNext(old(index), CloneCount(ipv), n)
      ensures n > 0 ==> CloneCount(ipv) <= index < CloneCount(ipv) + n
    {
      var clonesToCreate := CloneCount(ipv);
      if index >= clonesToCreate + n {
        index := clonesToCreate;
      }
      locked := false;
      pending := None;
    }

    /** The callback `prevSlide` schedules: before the first original, jump to
        the last one; release the lock. */
    method SettlePrev()
      requires Valid() && pending == Some(Backward)
      modifies this`index, this`locked, this`pending
      ensures Valid() && !locked
      ensures index == SnapAfterPrev(old(index), CloneCount(ipv), n)
      ensures n > 0 ==> CloneCount(ipv) <= index < CloneCount(ipv) + n
    {
      var clonesToCreate := CloneCount(ipv);
      if index < clonesToCreate {
        if n > 0 {
          OriginalsOfPadded(n, clonesToCreate);
        }
        index := clonesToCreate + |Originals(slides)| - 1;
      }
      locked := false;
      pending := None;
    }

    /** The debounced resize handler: rebuilds the clones only when the
        items-per-view changes; otherwise only the pixel offset is redrawn. */
    method Resize(width: int)
      requires Valid()
      modifies this`ipv, this`slides, this`index
      ensures Valid()
      ensures ipv == ItemsPerView(width)
      ensures ipv == old(ipv) ==> slides == old(slides) && index == old(index)
      ensures ipv != old(ipv) && n > 0 ==> slides == Padded(n, CloneCount(ipv)) && index == CloneCount(ipv)
      ensures n == 0 ==> index == old(index)
    {
      var oldItemsPerView := ipv;
      UpdateItemsPerView(width);
      if oldItemsPerView != ipv {
        if n > 0 {
          OriginalsOfPadded(n, CloneCount(oldItemsPerView));
        }
        SetupInfiniteLoop();
      }
    }

    /** `touchend` followed by `handleSwipe()`. */
    method Swipe(startX: real, endX: real)
      requires Valid()
      modifies this`index, this`locked, this`pending
      ensures Valid()
      ensures SwipeMove(startX, endX) == None || old(locked) ==>
        index == old(index) && locked == old(locked) && pending == old(pending)
      ensures SwipeMove(startX, endX) == Some(Forward) && !old(locked) ==>
        index == old(index) + 1 && pending == Some(Forward)
      ensures SwipeMove(startX, endX) == Some(Backward) && !old(locked) ==>
        index == old(index) - 1 && pending == Some(Backward)
    {
      var swipeThreshold := 50.0;
      if startX - endX > swipeThreshold {
        StartNext();
      } else if endX - startX > swipeThreshold {
        StartPrev();
      }
    }

    /** A move and its settle callback, with nothing in between. */
    method CompleteNext()
      requires Valid() && !locked && n > 0
      modifies this`index, this`locked, this`pending
      ensures Valid() && !locked
      ensures index == Advance(old(index), CloneCount(ipv), n)
    {
      StartNext();
      SettleNext();
    }

    method CompletePrev()
      requires Valid() && !locked && n > 0
      modifies this`index, this`locked, this`pending
      ensures Valid() && !locked
      ensures index == Retreat(old(index), CloneCount(ipv), n)
    {
      StartPrev();
      SettlePrev();
    }
  }

  /** Six items on a narrow screen: four clones a side, the first original at
      index 4, and six completed forward moves come back to index 4. */
  method SixItemsNarrowScreen() returns (start: int, final: int)
    ensures start == 4 && final == 4
  {
    var slider := new PortfolioSlider(6, 375);
    start := slider.index;
    for k := 0 to 6
      invariant slider.Valid() && !slider.locked && slider.n == 6 && slider.ipv == 1
      invariant slider.index == AdvanceTimes(4, 4, 6, k)
    {
      slider.CompleteNext();
    }
    AdvanceFullCycle(4, 4, 6);
    final := slider.index;
  }
}

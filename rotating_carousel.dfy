/**
  The rotating photo carousel: an index into a fixed list of items that
  the previous and next buttons move around modulo the list's length.
 */
module RotatingCarousel {
  import opened Opt
  import opened Builtins

  datatype Item = Item(id: int, title: string, imageUrl: string)

  /** `(prev + 1) % items.length`. */
  function Next(i: int, n: int): int
    requires n > 0
  {
    JsRemainder(i + 1, n)
  }

  /** `(prev - 1 + items.length) % items.length`. */
  function Prev(i: int, n: int): int
    requires n > 0
  {
    JsRemainder(i - 1 + n, n)
  }

  /** A non-zero multiple of `n` is at least `n` away from zero. */
  lemma MultipleAwayFromZero(x: int, n: int)
    requires n > 0
    ensures x >= 1 ==> x * n >= n
    ensures x <= -1 ==> x * n <= -n
  {
    if x >= 1 {
      assert x * n == (x - 1) * n + n;
    } else if x <= -1 {
      assert x * n == (x + 1) * n - n;
    }
  }

  /** Euclidean division is unique: `a == q * n + r` with `0 <= r < n` fixes the remainder. */
  lemma ModUnique(a: int, n: int, q: int, r: int)
    requires 0 < n && 0 <= r < n && a == q * n + r
    ensures a % n == r
  {
    var q' := a / n;
    assert a == q' * n + a % n;
    assert (q - q') * n == a % n - r;
    MultipleAwayFromZero(q - q', n);
  }

  /** A remainder that is already in range is the number itself. */
  lemma ModOfSmall(a: int, n: int)
    requires 0 <= a < n
    ensures a % n == a
  {
    ModUnique(a, n, 0, a);
  }

  /** Adding `n` does not change a remainder modulo `n`. */
  lemma ModPlusModulus(a: int, n: int)
    requires 0 <= a && 0 < n
    ensures (a + n) % n == a % n
  {
    var q := a / n;
    assert a == q * n + a % n;
    assert a + n == (q + 1) * n + a % n;
    ModUnique(a + n, n, q + 1, a % n);
  }

  /** Away from the ends, the steps move by exactly one; at the ends they wrap around. */
  lemma StepsMoveByOne(i: int, n: int)
    requires 0 <= i < n
    ensures Next(i, n) == if i + 1 < n then i + 1 else 0
    ensures Prev(i, n) == if 0 < i then i - 1 else n - 1
  {
    if i + 1 < n {
      ModOfSmall(i + 1, n);
    } else {
      ModUnique(i + 1, n, 1, 0);
    }
    if 0 < i {
      ModPlusModulus(i - 1, n);
      ModOfSmall(i - 1, n);
    } else {
      ModOfSmall(n - 1, n);
    }
  }

  /** Both steps keep a valid index valid. */
  lemma StepsStayInRange(i: int, n: int)
    requires 0 <= i < n
    ensures 0 <= Next(i, n) < n
    ensures 0 <= Prev(i, n) < n
  {
    StepsMoveByOne(i, n);
  }

  /** Next from the last item wraps to the first, and previous from the first to the last. */
  lemma StepsWrapAround(n: int)
    requires n > 0
    ensures Next(n - 1, n) == 0
    ensures Prev(0, n) == n - 1
  {
    StepsMoveByOne(n - 1, n);
    StepsMoveByOne(0, n);
  }

  /** Previous undoes next, and next undoes previous. */
  lemma PrevUndoesNext(i: int, n: int)
    requires 0 <= i < n
    ensures Prev(Next(i, n), n) == i
    ensures Next(Prev(i, n), n) == i
  {
    StepsMoveByOne(i, n);
    StepsMoveByOne(Next(i, n), n);
    StepsMoveByOne(Prev(i, n), n);
  }

  /** The index after `k` presses of next. */
  function NextTimes(i: int, n: int, k: nat): int
    requires n > 0
  {
    if k == 0 then i else Next(NextTimes(i, n, k - 1), n)
  }

  /** One press of next on a remainder gives the remainder of the next number. */
  lemma NextOfRemainder(a: int, n: int)
    requires 0 <= a && 0 < n
    ensures Next(a % n, n) == (a + 1) % n
  {
    var q, r := a / n, a % n;
    assert a == q * n + r;
    StepsMoveByOne(r, n);
    if r + 1 < n {
      ModUnique(a + 1, n, q, r + 1);
    } else {
      assert a + 1 == (q + 1) * n + 0;
      ModUnique(a + 1, n, q + 1, 0);
    }
  }

  /** `k` presses of next advance the index by `k` places around the list. */
  lemma {:induction false} NextTimesAdvances(i: int, n: int, k: nat)
    requires 0 <= i < n
    ensures NextTimes(i, n, k) == (i + k) % n
  {
    if k == 0 {
      ModOfSmall(i, n);
    } else {
      NextTimesAdvances(i, n, k - 1);
      NextOfRemainder(i + k - 1, n);
    }
  }

  /** `n` presses of next bring the carousel back to where it was. */
  lemma FullTurnReturns(i: int, n: int)
    requires 0 <= i < n
    ensures NextTimes(i, n, n) == i
  {
    NextTimesAdvances(i, n, n);
    ModUnique(i + n, n, 1, i);
  }

  /** One carousel on the page. */
  class Carousel {
    const items: seq<Item>
    /** `activeIndex`. */
    var activeIndex: int

    ghost predicate Valid()
      reads this
    {
      && 0 <= activeIndex
      && (|items| == 0 ==> activeIndex == 0)
      && (|items| > 0 ==> activeIndex < |items|)
    }

    /** `useState(0)`: the index starts at the first item. */
    constructor(items: seq<Item>)
      ensures this.items == items
      ensures activeIndex == 0
      ensures Valid()
    {
      this.items := items;
      activeIndex := 0;
    }

    /** The previous button, shown only when there are items. */
    method HandlePrev()
      requires Valid() && |items| > 0
      modifies this
      ensures Valid()
      ensures activeIndex == Prev(old(activeIndex), |items|)
    {
      activeIndex := (activeIndex - 1 + |items|) % |items|;
    }

    /** The next button, shown only when there are items. */
    method HandleNext()
      requires Valid() && |items| > 0
      modifies this
      ensures Valid()
      ensures activeIndex == Next(old(activeIndex), |items|)
    {
      activeIndex := (activeIndex + 1) % |items|;
    }

    /** `currentItem`: `items[activeIndex]`; an empty list shows no carousel at all. */
    method CurrentItem() returns (item: Option<Item>)
      requires Valid()
      ensures item.None? <==> |items| == 0
      ensures item.Some? ==> item.value == items[activeIndex]
    {
      if |items| == 0 {
        return None;
      }
      return Some(items[activeIndex]);
    }
  }

  /**
    A freshly shown carousel starts on the first item, and pressing next
    and then previous brings the same item back.
   */
  method NextThenPrevShowsSameItem(items: seq<Item>) returns (first: Option<Item>, back: Option<Item>)
    ensures items == [] ==> first == None
    ensures items != [] ==> first == Some(items[0])
    ensures back == first
  {
    var c := new Carousel(items);
    first := c.CurrentItem();
    if |items| > 0 {
      c.HandleNext();
      c.HandlePrev();
      PrevUndoesNext(0, |items|);
    }
    back := c.CurrentItem();
  }
}

// The growing list of the menu and file manager: elements with removal flags, and a comb sort.
module IndexedList {

  datatype Item<T> = Item(element: T, removal: bool)

  // ---- What the list holds, as a sequence of items ----

  ghost function Zip<T>(a: seq<T>, b: seq<bool>): (s: seq<Item<T>>)
    requires |a| == |b|
    ensures |s| == |a|
    ensures forall i | 0 <= i < |a| :: s[i] == Item(a[i], b[i])
  {
    seq(|a|, i requires 0 <= i < |a| => Item(a[i], b[i]))
  }

  // The items a purge keeps, in their order.
  ghost function Kept<T>(s: seq<Item<T>>): (r: seq<Item<T>>)
    ensures |r| <= |s|
  {
    if s == [] then []
    else if s[|s| - 1].removal then Kept(s[..|s| - 1])
    else Kept(s[..|s| - 1]) + [s[|s| - 1]]
  }

  ghost function Swapped<T>(s: seq<T>, i: nat, j: nat): (r: seq<T>)
    requires i < |s| && j < |s|
    ensures |r| == |s|
  {
    s[i := s[j]][j := s[i]]
  }

  // Exchanging two places changes no item, only their order.
  lemma SwappedItems<T>(s: seq<T>, i: nat, j: nat)
    requires i < |s| && j < |s|
    ensures multiset(Swapped(s, i, j)) == multiset(s)
  {
  }

  lemma KeptStep<T>(s: seq<Item<T>>, i: nat)
    requires i <= |s|
    ensures Kept(s[..0]) == []
    ensures i < |s| ==> Kept(s[..i + 1]) == if s[i].removal then Kept(s[..i]) else Kept(s[..i]) + [s[i]]
  {
    if i < |s| {
      assert s[..i + 1][..i] == s[..i];
    }
  }

  // Items that are the same but for their order lose the same items by a purge.
  lemma {:induction false} KeptItems<T(!new)>(s: seq<Item<T>>, x: Item<T>)
    ensures multiset(Kept(s))[x] == if x.removal then 0 else multiset(s)[x]
  {
    if s != [] {
      var n := |s| - 1;
      KeptItems(s[..n], x);
      assert s == s[..n] + [s[n]];
      assert multiset(s)[x] == multiset(s[..n])[x] + (if x == s[n] then 1 else 0);
      if !s[n].removal {
        assert multiset(Kept(s))[x] == multiset(Kept(s[..n]))[x] + (if x == s[n] then 1 else 0);
      }
    }
  }

  lemma PurgeAfterReorder<T(!new)>(a: seq<Item<T>>, b: seq<Item<T>>)
    requires multiset(a) == multiset(b)
    ensures multiset(Kept(a)) == multiset(Kept(b))
  {
    forall x: Item<T> ensures multiset(Kept(a))[x] == multiset(Kept(b))[x] {
      KeptItems(a, x);
      KeptItems(b, x);
    }
  }

  // ---- Order ----

  ghost predicate TotalPreorder<T(!new)>(compare: (T, T) -> int) {
    && (forall a, b :: compare(a, b) <= 0 || compare(b, a) <= 0)
    && (forall a, b, c :: compare(a, b) <= 0 && compare(b, c) <= 0 ==> compare(a, c) <= 0)
  }

  ghost predicate InOrder<T>(compare: (T, T) -> int, s: seq<Item<T>>) {
    forall i, j | 0 <= i < j < |s| :: compare(s[i].element, s[j].element) <= 0
  }

  // No two items gap places apart are out of order.
  ghost predicate Combed<T>(compare: (T, T) -> int, s: seq<Item<T>>, gap: nat) {
    forall i | 0 <= i < |s| - gap :: compare(s[i].element, s[i + gap].element) <= 0
  }

  lemma {:induction false} CombedFrom<T(!new)>(compare: (T, T) -> int, s: seq<Item<T>>, i: nat, j: nat)
    requires TotalPreorder(compare) && Combed(compare, s, 1) && i < j < |s|
    ensures compare(s[i].element, s[j].element) <= 0
    decreases j
  {
    if j > i + 1 {
      CombedFrom(compare, s, i, j - 1);
      assert compare(s[j - 1].element, s[j - 1 + 1].element) <= 0;
    }
  }

  lemma CombedIsInOrder<T(!new)>(compare: (T, T) -> int, s: seq<Item<T>>)
    requires TotalPreorder(compare) && Combed(compare, s, 1)
    ensures InOrder(compare, s)
  {
    forall i, j | 0 <= i < j < |s| ensures compare(s[i].element, s[j].element) <= 0 {
      CombedFrom(compare, s, i, j);
    }
  }

  // ---- The measure of the passes with gap one ----

  // Number of items of s that belong before x.
  ghost function Before<T>(compare: (T, T) -> int, x: T, s: seq<Item<T>>): nat {
    if s == [] then 0 else (if compare(x, s[0].element) > 0 then 1 else 0) + Before(compare, x, s[1..])
  }

  ghost function Inversions<T>(compare: (T, T) -> int, s: seq<Item<T>>): nat {
    if s == [] then 0 else Before(compare, s[0].element, s[1..]) + Inversions(compare, s[1..])
  }

  lemma {:induction false} BeforeSwap<T>(compare: (T, T) -> int, x: T, s: seq<Item<T>>, i: nat)
    requires i + 1 < |s|
    ensures Before(compare, x, Swapped(s, i, i + 1)) == Before(compare, x, s)
  {
    var r := Swapped(s, i, i + 1);
    if i == 0 {
      assert s[1..][1..] == s[2..] && r[1..][1..] == s[2..];
    } else {
      BeforeSwap(compare, x, s[1..], i - 1);
      assert r[1..] == Swapped(s[1..], i - 1, i);
    }
  }

  // Exchanging two neighbours that are out of order removes exactly one inversion.
  lemma {:induction false} SwapRemovesInversion<T(!new)>(compare: (T, T) -> int, s: seq<Item<T>>, i: nat)
    requires TotalPreorder(compare) && i + 1 < |s| && compare(s[i].element, s[i + 1].element) > 0
    ensures Inversions(compare, Swapped(s, i, i + 1)) == Inversions(compare, s) - 1
  {
    var r := Swapped(s, i, i + 1);
    if i == 0 {
      assert s[1..][1..] == s[2..] && r[1..][1..] == s[2..];
    } else {
      BeforeSwap(compare, s[0].element, s[1..], i - 1);
      SwapRemovesInversion(compare, s[1..], i - 1);
      assert r[1..] == Swapped(s[1..], i - 1, i);
    }
  }

  // The next gap: ten thirteenths, and 11 for 9 and 10.
  function NextGap(gap: nat): (next: nat)
    ensures gap > 1 ==> 1 <= next < gap
    ensures gap <= 1 ==> next == gap
  {
    if gap > 1 then
      var g := 10 * gap / 13;
      if g == 10 || g == 9 then 11 else g
    else gap
  }

  // The gaps of a list of a hundred elements.
  lemma GapsFrom100()
    ensures NextGap(100) == 76 && NextGap(76) == 58 && NextGap(58) == 44 && NextGap(44) == 33 && NextGap(33) == 25
    ensures NextGap(25) == 19 && NextGap(19) == 14 && NextGap(14) == 11 && NextGap(13) == 11 && NextGap(12) == 11
    ensures NextGap(11) == 8 && NextGap(8) == 6 && NextGap(6) == 4 && NextGap(4) == 3 && NextGap(3) == 2
    ensures NextGap(2) == 1
  {
  }

  class List<T(!new,==)> {
    var elementArray: array<T>
    var removal: array<bool>
    var elements: nat
    const empty: T

    ghost predicate Valid()
      reads this
    {
      elements <= elementArray.Length == removal.Length && elementArray != removal
    }

    ghost function Items(): (s: seq<Item<T>>)
      requires Valid()
      reads this, elementArray, removal
      ensures |s| == elements
    {
      Zip(elementArray[..elements], removal[..elements])
    }

    constructor (initial: nat, def: T)
      ensures Valid() && fresh(elementArray) && fresh(removal)
      ensures Items() == [] && empty == def && elementArray.Length == initial
    {
      empty := def;
      elementArray := new T[initial](_ => def);
      removal := new bool[initial](_ => false);
      elements := 0;
    }

    // Both arrays replaced by arrays of twice the size, or of 16 places.
    method Expand()
      requires Valid()
      modifies this
      ensures Valid() && fresh(elementArray) && fresh(removal)
      ensures Items() == old(Items())
      ensures elementArray.Length == if old(elementArray.Length) == 0 then 16 else 2 * old(elementArray.Length)
    {
      var size := if elementArray.Length == 0 then 16 else 2 * elementArray.Length;
      var def := empty;
      var newArray := new T[size](_ => def);
      var newRemoval := new bool[size](_ => false);
      for i := 0 to elements
        invariant unchanged(this) && unchanged(elementArray) && unchanged(removal)
        invariant forall k | 0 <= k < i :: newArray[k] == elementArray[k] && newRemoval[k] == removal[k]
      {
        newArray[i] := elementArray[i];
        newRemoval[i] := removal[i];
      }
      elementArray, removal := newArray, newRemoval;
      assert elementArray[..elements] == old(elementArray[..elements]);
      assert removal[..elements] == old(removal[..elements]);
    }

    method Append(el: T)
      requires Valid()
      modifies this, elementArray, removal
      ensures Valid()
      ensures Items() == old(Items()) + [Item(el, false)]
    {
      if elements == elementArray.Length {
        Expand();
      }
      label Room:
      assert Items() == old(Items());
      elementArray[elements] := el;
      removal[elements] := false;
      elements := elements + 1;
      assert elementArray[..elements] == old@Room(elementArray[..elements]) + [el];
      assert removal[..elements] == old@Room(removal[..elements]) + [false];
    }

    // A mark behind the last element but within the arrays changes nothing of the list.
    method MarkForRemoval(idx: nat)
      requires Valid()
      modifies removal
      ensures idx < elements ==> Items() == old(Items())[idx := Item(old(Items())[idx].element, true)]
      ensures idx >= elements ==> Items() == old(Items())
    {
      if idx < removal.Length {
        removal[idx] := true;
      }
    }

    method PurgeList()
      requires Valid()
      modifies this`elements, elementArray, removal
      ensures Valid() && Items() == Kept(old(Items()))
    {
      hide Kept;
      ghost var was := Items();
      var leftOver := 0;
      KeptStep(was, 0);
      for i := 0 to elements
        invariant leftOver <= i && unchanged(`elements)
        invariant leftOver == |Kept(was[..i])|
        invariant forall k | 0 <= k < leftOver :: Item(elementArray[k], removal[k]) == Kept(was[..i])[k]
        invariant forall k | i <= k < elements :: Item(elementArray[k], removal[k]) == was[k]
      {
        KeptStep(was, i);
        if !removal[i] {
          MoveDown(i, leftOver);
          leftOver := leftOver + 1;
        }
      }
      assert was[..elements] == was;
      elements := leftOver;
    }

    method MoveDown(i: nat, leftOver: nat)
      requires Valid() && leftOver <= i < elements
      modifies elementArray, removal
      ensures elementArray[leftOver] == old(elementArray[i]) && !removal[leftOver]
      ensures forall k | 0 <= k < elements && k != leftOver ::
                elementArray[k] == old(elementArray[k]) && removal[k] == old(removal[k])
    {
      removal[leftOver] := false;
      if i != leftOver {
        elementArray[leftOver] := elementArray[i];
      }
    }

    // The first element equal to el taken out, if there is one.
    method Remove(el: T) returns (res: bool)
      requires Valid()
      modifies this`elements, elementArray, removal
      ensures Valid()
      ensures res == exists k :: 0 <= k < |old(Items())| && old(Items())[k].element == el
      ensures !res ==> Items() == old(Items())
      ensures res ==> exists k: nat ::
                FirstAt(old(Items()), el, k) && Items() == old(Items())[..k] + old(Items())[k + 1..]
    {
      ghost var was := Items();
      for i := 0 to elements
        invariant unchanged(this) && unchanged(elementArray) && unchanged(removal)
        invariant forall k | 0 <= k < i :: was[k].element != el
      {
        if elementArray[i] == el {
          CloseGap(i);
          assert FirstAt(was, el, i);
          return true;
        }
      }
      return false;
    }

    method CloseGap(i: nat)
      requires Valid() && i < elements
      modifies this`elements, elementArray, removal
      ensures Valid() && Items() == old(Items())[..i] + old(Items())[i + 1..]
    {
      ghost var was := Items();
      elements := elements - 1;
      for j := i to elements
        invariant elements == old(elements) - 1
        invariant forall k | 0 <= k <= elements ::
                    Item(elementArray[k], removal[k]) == was[if i <= k < j then k + 1 else k]
      {
        elementArray[j] := elementArray[j + 1];
        removal[j] := removal[j + 1];
      }
    }

    method Swap(i: nat, j: nat)
      requires Valid() && i < elements && j < elements
      modifies elementArray, removal
      ensures Items() == Swapped(old(Items()), i, j)
    {
      var temp := elementArray[j];
      elementArray[j] := elementArray[i];
      elementArray[i] := temp;
      var temp2 := removal[j];
      removal[j] := removal[i];
      removal[i] := temp2;
    }

    method At(i: int) returns (r: T)
      requires Valid()
      ensures r == if 0 <= i < |Items()| then Items()[i].element else empty
    {
      if i < 0 { return empty; }
      if i >= elements { return empty; }
      return elementArray[i];
    }

    // One pass of the comb: exchanges places gap apart that are out of order.
    method Pass(compare: (T, T) -> int, gap: nat) returns (swaps: nat)
      requires Valid() && TotalPreorder(compare) && gap > 0
      modifies elementArray, removal
      ensures multiset(Items()) == multiset(old(Items()))
      ensures gap == 1 ==> Inversions(compare, Items()) == Inversions(compare, old(Items())) - swaps
      ensures swaps == 0 ==> Combed(compare, Items(), gap)
    {
      hide Inversions, TotalPreorder, Swapped, Items;
      var i := 0;
      swaps := 0;
      while i + gap < elements
        invariant i == 0 || i + gap <= elements
        invariant multiset(Items()) == multiset(old(Items()))
        invariant gap == 1 ==> Inversions(compare, Items()) == Inversions(compare, old(Items())) - swaps
        invariant swaps == 0 ==> Items() == old(Items())
        invariant swaps == 0 ==> forall k | 0 <= k < i :: compare(Items()[k].element, Items()[k + gap].element) <= 0
        decreases elements - i
      {
        var swapped := Comb(compare, i, gap);
        if swapped {
          swaps := swaps + 1;
        }
        i := i + 1;
      }
    }

    // Two places gap apart, exchanged if they are out of order.
    method Comb(compare: (T, T) -> int, i: nat, gap: nat) returns (swapped: bool)
      requires Valid() && TotalPreorder(compare) && i + gap < elements && gap > 0
      modifies elementArray, removal
      ensures multiset(Items()) == multiset(old(Items()))
      ensures gap == 1 ==>
              Inversions(compare, Items()) == Inversions(compare, old(Items())) - (if swapped then 1 else 0)
      ensures !swapped ==> Items() == old(Items()) && compare(Items()[i].element, Items()[i + gap].element) <= 0
    {
      hide Inversions, TotalPreorder, Swapped, Items;
      var x := At(i);
      var y := At(i + gap);
      swapped := compare(x, y) > 0;
      if swapped {
        SwappedItems(Items(), i, i + gap);
        if gap == 1 {
          SwapRemovesInversion(compare, Items(), i);
        }
        Swap(i, i + gap);
      }
    }

    // The comb sort ends, and leaves the same items with their flags in order.
    method Sort(compare: (T, T) -> int)
      requires Valid() && TotalPreorder(compare)
      modifies elementArray, removal
      ensures multiset(Items()) == multiset(old(Items()))
      ensures InOrder(compare, Items())
    {
      hide Inversions, TotalPreorder, Combed, Items;
      if elements < 2 { return; }
      var gap := elements - 1;
      while true
        invariant gap >= 1
        invariant multiset(Items()) == multiset(old(Items()))
        decreases gap, Inversions(compare, Items())
      {
        gap := NextGap(gap);
        var swaps := Pass(compare, gap);
        if !(swaps != 0 || gap > 1) {
          CombedIsInOrder(compare, Items());
          return;
        }
      }
    }
  }

  ghost predicate FirstAt<T>(s: seq<Item<T>>, el: T, k: nat) {
    k < |s| && s[k].element == el && forall j | 0 <= j < k :: s[j].element != el
  }
}

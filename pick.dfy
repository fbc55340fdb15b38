/** The number-picking page: the display shuffle of the available numbers, the
    guards of the "Pick a Number" handler and the number it submits, the merged
    list of all numbers shown as boxes, and how each box and the button are drawn.
    `Math.random()` is an argument: a real in [0, 1), its ideal value. */
module Pick {
  import opened JsValues
  import Sorting

  // ---------------------------------------------------------------------------
  // Random indices

  /** A value `Math.random()` can return. */
  predicate IsRandom(rand: real) {
    0.0 <= rand < 1.0
  }

  /** `Math.floor(Math.random() * n)`: always an index below n. */
  function RandomIndex(rand: real, n: nat): (j: nat)
    requires IsRandom(rand) && n > 0
    ensures j < n
  {
    assert rand * (n as real) < n as real;
    (rand * (n as real)).Floor
  }

  /** Every index below n is drawn for some random value, so no index is excluded. */
  lemma RandomIndexReachesAll(n: nat, k: nat)
    requires k < n
    ensures IsRandom(k as real / n as real)
    ensures RandomIndex(k as real / n as real, n) == k
  {
    var rand := k as real / n as real;
    assert rand * (n as real) == k as real;
  }

  // ---------------------------------------------------------------------------
  // shuffleArray: Fisher-Yates

  /** One random value per loop iteration; `rands[i]` is drawn when the loop is at i. */
  predicate ValidDraws(rands: seq<real>) {
    forall i :: 0 <= i < |rands| ==> IsRandom(rands[i])
  }

  /** `[s[i], s[j]] = [s[j], s[i]]` on a sequence. */
  function Swap<T>(s: seq<T>, i: nat, j: nat): (r: seq<T>)
    requires i < |s| && j < |s|
    ensures |r| == |s| && r[i] == s[j] && r[j] == s[i]
    ensures forall k :: 0 <= k < |s| && k != i && k != j ==> r[k] == s[k]
  {
    s[i := s[j]][j := s[i]]
  }

  lemma SwapPermutes<T>(s: seq<T>, i: nat, j: nat)
    requires i < |s| && j < |s|
    ensures multiset(Swap(s, i, j)) == multiset(s)
  {
    var t := s[i := s[j]];
    assert multiset(t) == multiset(s) - multiset{s[i]} + multiset{s[j]};
    assert multiset(t[j := s[i]]) == multiset(t) - multiset{t[j]} + multiset{s[i]};
  }

  /** The loop of `shuffleArray` from iteration i down to 1. */
  function ShuffleFrom<T>(s: seq<T>, rands: seq<real>, i: int): seq<T>
    requires |rands| == |s| && ValidDraws(rands) && i < |s|
    decreases i
  {
    if i <= 0 then s
    else ShuffleFrom(Swap(s, i, RandomIndex(rands[i], i + 1)), rands, i - 1)
  }

  /** What `shuffleArray` leaves in the array: the loop from `length - 1` down to 1. */
  function Shuffled<T>(s: seq<T>, rands: seq<real>): seq<T>
    requires |rands| == |s| && ValidDraws(rands)
  {
    ShuffleFrom(s, rands, |s| - 1)
  }

  lemma {:induction false} ShuffleFromPermutes<T>(s: seq<T>, rands: seq<real>, i: int)
    requires |rands| == |s| && ValidDraws(rands) && i < |s|
    ensures |ShuffleFrom(s, rands, i)| == |s|
    ensures multiset(ShuffleFrom(s, rands, i)) == multiset(s)
    decreases i
  {
    if i > 0 {
      var j := RandomIndex(rands[i], i + 1);
      SwapPermutes(s, i, j);
      ShuffleFromPermutes(Swap(s, i, j), rands, i - 1);
    }
  }

  /** The shuffle keeps the length and rearranges the elements: a permutation. */
  lemma ShuffledIsPermutation<T>(s: seq<T>, rands: seq<real>)
    requires |rands| == |s| && ValidDraws(rands)
    ensures |Shuffled(s, rands)| == |s|
    ensures multiset(Shuffled(s, rands)) == multiset(s)
  {
    ShuffleFromPermutes(s, rands, |s| - 1);
  }

  /** Arrays of length 0 or 1 are left as they are: the loop never runs. */
  lemma ShortArraysUntouched<T>(s: seq<T>, rands: seq<real>)
    requires |rands| == |s| && ValidDraws(rands) && |s| <= 1
    ensures Shuffled(s, rands) == s
  {
  }

  /** `shuffleArray(array)`: swaps in place and returns the array it was given.
      Each swap partner j = RandomIndex(rands[i], i + 1) satisfies 0 <= j <= i. */
  method ShuffleArray<T>(a: array<T>, rands: seq<real>) returns (r: array<T>)
    requires |rands| == a.Length && ValidDraws(rands)
    modifies a
    ensures r == a
    ensures a[..] == Shuffled(old(a[..]), rands)
    ensures multiset(a[..]) == multiset(old(a[..]))
  {
    ghost var input := a[..];
    var i := a.Length - 1;
    while i > 0
      invariant -1 <= i < a.Length
      invariant a.Length > 0 ==> 0 <= i
      invariant ShuffleFrom(a[..], rands, i) == Shuffled(input, rands)
      decreases i
    {
      var j := RandomIndex(rands[i], i + 1);
      ghost var before := a[..];
      a[i], a[j] := a[j], a[i];
      ShuffleStep(before, a[..], rands, i, j);
      i := i - 1;
    }
    ShuffledIsPermutation(input, rands);
    r := a;
  }

  /** One iteration of the loop, stated on the array's contents before and after the swap. */
  lemma ShuffleStep<T>(before: seq<T>, after: seq<T>, rands: seq<real>, i: nat, j: nat)
    requires |rands| == |before| && ValidDraws(rands) && 0 < i < |before|
    requires j == RandomIndex(rands[i], i + 1)
    requires after == before[i := before[j]][j := before[i]]
    ensures ShuffleFrom(after, rands, i - 1) == ShuffleFrom(before, rands, i)
  {
  }

  // ---------------------------------------------------------------------------
  // handlePickNumber

  /** What one click on "Pick a Number" does. */
  datatype PickOutcome =
    | NoNumbersAvailable                      // alert, no request, loading untouched
    | AlreadyChosen                           // alert, no request, loading untouched
    | Submitted(index: nat, pickedNumber: int) // loading set, pickedNumber sent

  /** `handlePickNumber`: the two guards in order, then a random index into the
      (shuffled) available numbers. */
  function HandlePickNumber(available: seq<int>, userChosenStatus: Option<bool>, rand: real): (r: PickOutcome)
    requires IsRandom(rand)
    ensures r == NoNumbersAvailable <==> available == []
    ensures r == AlreadyChosen <==> available != [] && TruthyBool(userChosenStatus)
    ensures r.Submitted? ==> r.index < |available| && r.pickedNumber == available[r.index]
  {
    if |available| == 0 then NoNumbersAvailable
    else if TruthyBool(userChosenStatus) then AlreadyChosen
    else
      var index := RandomIndex(rand, |available|);
      Submitted(index, available[index])
  }

  /** Once the guards pass, every available number is a possible submission. */
  lemma EveryAvailableNumberCanBePicked(available: seq<int>, userChosenStatus: Option<bool>, k: nat)
    requires k < |available| && !TruthyBool(userChosenStatus)
    ensures IsRandom(k as real / |available| as real)
    ensures HandlePickNumber(available, userChosenStatus, k as real / |available| as real)
            == Submitted(k, available[k])
  {
    RandomIndexReachesAll(|available|, k);
  }

  // ---------------------------------------------------------------------------
  // totalNumbers: Set union, then numeric sort

  ghost predicate Distinct<T>(s: seq<T>) {
    forall i, j :: 0 <= i < j < |s| ==> s[i] != s[j]
  }

  ghost predicate StrictlyAscending(s: seq<int>) {
    forall i, j :: 0 <= i < j < |s| ==> s[i] < s[j]
  }

  /** `[...new Set(s)]`: the first occurrence of each value, in order. */
  function Dedup(s: seq<int>): (r: seq<int>)
    ensures Distinct(r)
    ensures forall x :: x in r <==> x in s
    decreases |s|
  {
    if s == [] then []
    else
      var d := Dedup(s[..|s| - 1]);
      if s[|s| - 1] in d then d else d + [s[|s| - 1]]
  }

  /** The comparator `(a, b) => a - b`. */
  function NumericOrder(a: int, b: int): (r: int)
    ensures r < 0 <==> a < b
    ensures r == 0 <==> a == b
  {
    a - b
  }


  lemma {:induction false} DistinctHasSingleCounts<T>(s: seq<T>)
    requires Distinct(s)
    ensures forall x :: multiset(s)[x] <= 1
    decreases |s|
  {
    if s != [] {
      var init, last := s[..|s| - 1], s[|s| - 1];
      assert s == init + [last];
      DistinctHasSingleCounts(init);
      assert last !in init;
    }
  }

  lemma EqualPairCountsTwice<T>(s: seq<T>, i: nat, j: nat)
    requires i < j < |s|
    ensures s[i] == s[j] ==> multiset(s)[s[i]] >= 2
  {
    assert s == s[..j] + [s[j]] + s[j + 1..];
    assert s[..j] == s[..i] + [s[i]] + s[i + 1..j];
  }

  lemma SingleCountsAreDistinct<T>(s: seq<T>)
    requires forall x :: multiset(s)[x] <= 1
    ensures Distinct(s)
  {
    forall i, j | 0 <= i < j < |s| ensures s[i] != s[j] {
      EqualPairCountsTwice(s, i, j);
    }
  }

  /** Two lists with the same multiset have the same members. */
  lemma PermutationKeepsMembers(s: seq<int>, t: seq<int>)
    requires multiset(s) == multiset(t)
    ensures forall x :: x in s <==> x in t
  {
    forall x ensures x in s <==> x in t {
      assert x in s <==> x in multiset(s);
      assert x in t <==> x in multiset(t);
    }
  }

  lemma NumericOrderConsistent()
    ensures Sorting.Consistent(NumericOrder)
  {
  }

  lemma SortedDistinctAscending(r: seq<int>)
    requires Sorting.SortedBy(r, NumericOrder) && Distinct(r)
    ensures StrictlyAscending(r)
  {
    forall i, j | 0 <= i < j < |r| ensures r[i] < r[j] {
      assert NumericOrder(r[i], r[j]) <= 0;
    }
  }

  /** `[...new Set([...available, ...chosen])].sort((a, b) => a - b)`: the merged
      list holds every available and every chosen number, nothing else, each once,
      in strictly ascending order. */
  function TotalNumbers(available: seq<int>, chosen: seq<int>): (r: seq<int>)
    ensures StrictlyAscending(r)
    ensures forall x :: x in r <==> x in available || x in chosen
  {
    var d := Dedup(available + chosen);
    var sorted := Sorting.InsertionSort(d, NumericOrder);
    Sorting.SortPermutes(d, NumericOrder);
    PermutationKeepsMembers(sorted, d);
    DistinctHasSingleCounts(d);
    SingleCountsAreDistinct(sorted);
    NumericOrderConsistent();
    Sorting.SortSorted(d, NumericOrder);
    SortedDistinctAscending(sorted);
    sorted
  }

  /** A strictly ascending list is fixed by its elements. */
  lemma {:induction false} StrictlyAscendingUnique(r1: seq<int>, r2: seq<int>)
    requires StrictlyAscending(r1) && StrictlyAscending(r2)
    requires forall x :: x in r1 <==> x in r2
    ensures r1 == r2
    decreases |r1|
  {
    if r1 != [] {
      assert r1[0] in r1;
    }
    if r2 != [] {
      assert r2[0] in r2;
    }
    if r1 != [] {
      assert r1[0] == r2[0] by {
        assert r1[0] in r1 && r2[0] in r2;
        var k1 :| 0 <= k1 < |r1| && r1[k1] == r2[0];
        var k2 :| 0 <= k2 < |r2| && r2[k2] == r1[0];
        assert r1[0] <= r1[k1] && r2[0] <= r2[k2];
      }
      forall x ensures x in r1[1..] <==> x in r2[1..] {
        if x in r1[1..] {
          assert x in r2;
          assert x != r2[0];
        }
        if x in r2[1..] {
          assert x in r1;
          assert x != r1[0];
        }
      }
      StrictlyAscendingUnique(r1[1..], r2[1..]);
    }
  }

  /** The merged list depends only on which numbers are available, not on their
      order, so the shuffle cannot change it. */
  lemma TotalNumbersIgnoresOrder(available1: seq<int>, available2: seq<int>, chosen: seq<int>)
    requires forall x :: x in available1 <==> x in available2
    ensures TotalNumbers(available1, chosen) == TotalNumbers(available2, chosen)
  {
    StrictlyAscendingUnique(TotalNumbers(available1, chosen), TotalNumbers(available2, chosen));
  }

  // ---------------------------------------------------------------------------
  // fetchData

  /** The page state `fetchData` sets. */
  datatype NumbersState = NumbersState(available: seq<int>, chosen: seq<int>, total: seq<int>)

  /** `fetchData`: the two requests are awaited in turn, and if either throws the
      page keeps the lists it had. Each response is reduced to its `number` fields.
      On success the shuffle is cosmetic: the available numbers are a permutation
      of the response, and the merged list is the same for every outcome of the draws. */
  function FetchData(current: NumbersState, availableResponse: Option<seq<int>>,
                     chosenResponse: Option<seq<int>>, rands: seq<real>): (next: NumbersState)
    requires availableResponse.Some? ==> |rands| == |availableResponse.value| && ValidDraws(rands)
    ensures availableResponse.None? || chosenResponse.None? ==> next == current
    ensures availableResponse.Some? && chosenResponse.Some? ==>
              && multiset(next.available) == multiset(availableResponse.value)
              && next.chosen == chosenResponse.value
              && next.total == TotalNumbers(availableResponse.value, chosenResponse.value)
  {
    if availableResponse.None? || chosenResponse.None? then current
    else
      var shuffled := Shuffled(availableResponse.value, rands);
      ShuffledIsPermutation(availableResponse.value, rands);
      PermutationKeepsMembers(shuffled, availableResponse.value);
      TotalNumbersIgnoresOrder(shuffled, availableResponse.value, chosenResponse.value);
      NumbersState(shuffled, chosenResponse.value, TotalNumbers(shuffled, chosenResponse.value))
  }

  // ---------------------------------------------------------------------------
  // Rendering

  datatype BoxStyle = ChosenStyle | AvailableStyle   // red border / green border
  datatype Cursor = NotAllowed | Pointer
  datatype NumberBox = NumberBox(number: int, style: BoxStyle, cursor: Cursor)
  datatype PickButton = PickButton(disabled: bool, text: string)

  /** The box drawn for one number of `totalNumbers`. */
  function Box(number: int, chosen: seq<int>, userChosenStatus: Option<bool>): NumberBox {
    NumberBox(number,
              if number in chosen then ChosenStyle else AvailableStyle,
              if number in chosen || TruthyBool(userChosenStatus) then NotAllowed else Pointer)
  }

  /** `totalNumbers.map(number => <div ...>)`: one box per entry, in order. */
  function RenderBoxes(total: seq<int>, chosen: seq<int>, userChosenStatus: Option<bool>): (boxes: seq<NumberBox>)
    ensures |boxes| == |total|
    ensures forall k :: 0 <= k < |total| ==> boxes[k].number == total[k]
    ensures forall k :: 0 <= k < |total| ==> (boxes[k].style == ChosenStyle <==> total[k] in chosen)
    ensures forall k :: 0 <= k < |total| ==>
              (boxes[k].cursor == NotAllowed <==> total[k] in chosen || TruthyBool(userChosenStatus))
  {
    seq(|total|, k requires 0 <= k < |total| => Box(total[k], chosen, userChosenStatus))
  }

  /** The "Pick a Number" button. */
  function RenderButton(available: seq<int>, loading: bool, userChosenStatus: Option<bool>): (b: PickButton)
    ensures b.disabled <==> available == [] || loading || TruthyBool(userChosenStatus)
    ensures b.text == if loading then "Submitting..." else "Pick a Number"
  {
    PickButton(|available| == 0 || loading || TruthyBool(userChosenStatus),
               if loading then "Submitting..." else "Pick a Number")
  }

  /** "No numbers available or chosen." is shown exactly when the merged list is empty. */
  predicate ShowsEmptyNotice(total: seq<int>) {
    |total| == 0
  }

  /** On the page built by `fetchData`, every available or chosen number has exactly
      one box, boxes run in ascending order, and a box is green exactly when its
      number is available and not chosen. */
  lemma BoxesShowAvailability(available: seq<int>, chosen: seq<int>, userChosenStatus: Option<bool>)
    ensures var boxes := RenderBoxes(TotalNumbers(available, chosen), chosen, userChosenStatus);
            && (forall x :: (x in available || x in chosen) <==>
                  exists k :: 0 <= k < |boxes| && boxes[k].number == x)
            && (forall k, l :: 0 <= k < l < |boxes| ==> boxes[k].number < boxes[l].number)
            && (forall k :: 0 <= k < |boxes| ==>
                  (boxes[k].style == AvailableStyle <==> boxes[k].number in available && boxes[k].number !in chosen))
  {
    var total := TotalNumbers(available, chosen);
    var boxes := RenderBoxes(total, chosen, userChosenStatus);
    forall x ensures (x in available || x in chosen) <==> exists k :: 0 <= k < |boxes| && boxes[k].number == x {
      if x in available || x in chosen {
        assert x in total;
        var k :| 0 <= k < |total| && total[k] == x;
        assert boxes[k].number == x;
      }
    }
    forall k | 0 <= k < |boxes|
      ensures boxes[k].style == AvailableStyle <==> boxes[k].number in available && boxes[k].number !in chosen
    {
      assert total[k] in total;
    }
  }

  /** The empty-notice appears exactly when no number is available or chosen. */
  lemma EmptyNoticeIffNoNumbers(available: seq<int>, chosen: seq<int>)
    ensures ShowsEmptyNotice(TotalNumbers(available, chosen)) <==> available == [] && chosen == []
  {
    var total := TotalNumbers(available, chosen);
    if available != [] {
      assert available[0] in available;
    } else if chosen != [] {
      assert chosen[0] in chosen;
    }
  }

  /** The button and the handler agree: an enabled button always leads to a
      submission, and when nothing is loading the button is disabled exactly
      when a click would not submit. */
  lemma ButtonMatchesHandler(available: seq<int>, loading: bool, userChosenStatus: Option<bool>, rand: real)
    requires IsRandom(rand)
    ensures !RenderButton(available, loading, userChosenStatus).disabled ==>
              HandlePickNumber(available, userChosenStatus, rand).Submitted?
    ensures !loading ==>
              (RenderButton(available, loading, userChosenStatus).disabled <==>
               !HandlePickNumber(available, userChosenStatus, rand).Submitted?)
  {
  }

  // ---------------------------------------------------------------------------
  // Redirects

  /** On mount: no stored user id navigates to /login. */
  function OnMount(userId: Option<string>): (navigations: seq<string>)
    ensures !TruthyString(userId) ==> navigations == ["/login"]
    ensures TruthyString(userId) ==> navigations == []
  {
    if !TruthyString(userId) then ["/login"] else []
  }

  /** After the user record is fetched: a user who has chosen navigates to /dashboard. */
  function AfterUserFetched(chosen: bool): (navigations: seq<string>)
    ensures chosen ==> navigations == ["/dashboard"]
    ensures !chosen ==> navigations == []
  {
    if chosen then ["/dashboard"] else []
  }
}

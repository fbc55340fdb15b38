/** The dashboard page: phone-number masking, the split of all users into those
    who have picked a number and those who have not, the two in-place sorts of
    those lists, and the redirects taken before any list is read. */
module Dashboard {
  import opened JsValues
  import Sorting

  /** A user record as the dashboard reads it. */
  datatype User = User(name: string, phoneNumber: Option<string>, chosen: bool, assignedNumber: int)

  // ---------------------------------------------------------------------------
  // maskPhoneNumber: phone.replace(/(\d{3})\d{4}(\d{2})/, '$1****$2')

  /** `\d` in a JavaScript regex: an ASCII digit. */
  predicate IsDigit(c: char) {
    '0' <= c <= '9'
  }

  /** Nine consecutive digits start at k: the regex matches there. */
  predicate DigitRunAt(s: string, k: nat) {
    k + 9 <= |s| && forall i :: k <= i < k + 9 ==> IsDigit(s[i])
  }

  /** The regex engine's scan: the leftmost position at or after `from` where it matches. */
  function FindDigitRun(s: string, from: nat): (r: Option<nat>)
    ensures r.None? ==> forall k :: from <= k ==> !DigitRunAt(s, k)
    ensures r.Some? ==> from <= r.value && DigitRunAt(s, r.value)
    ensures r.Some? ==> forall k :: from <= k < r.value ==> !DigitRunAt(s, k)
    decreases |s| - from
  {
    if from + 9 > |s| then None
    else if DigitRunAt(s, from) then Some(from)
    else FindDigitRun(s, from + 1)
  }

  /** The replacement on a non-empty string: without the `g` flag only the first
      match is rewritten; its digits 4 to 7 become `*`. */
  function MaskText(s: string): (r: string)
    ensures |r| == |s|
  {
    match FindDigitRun(s, 0)
    case None => s
    case Some(k) => s[..k + 3] + "****" + s[k + 7..]
  }

  /** `maskPhoneNumber(phone)`: a falsy phone is returned as it is. */
  function MaskPhoneNumber(phone: Option<string>): (r: Option<string>)
    ensures !TruthyString(phone) ==> r == phone
    ensures TruthyString(phone) ==> r == Some(MaskText(phone.value)) && |r.value| == |phone.value|
  {
    if !TruthyString(phone) then phone else Some(MaskText(phone.value))
  }

  /** Without a run of nine digits the text is unchanged. */
  lemma MaskWithoutRun(s: string)
    requires forall k :: !DigitRunAt(s, k)
    ensures MaskText(s) == s
  {
  }

  /** With its leftmost run of nine digits at k, exactly positions k+3 .. k+6 become
      `*`; the first three and the last two digits of the run and everything
      outside it are kept. */
  lemma MaskLeftmostRun(s: string, k: nat)
    requires DigitRunAt(s, k)
    requires forall k' :: 0 <= k' < k ==> !DigitRunAt(s, k')
    ensures |MaskText(s)| == |s|
    ensures forall i :: 0 <= i < |s| ==> MaskText(s)[i] == if k + 3 <= i < k + 7 then '*' else s[i]
  {
    var found := FindDigitRun(s, 0);
    assert found == Some(k);
  }

  /** A second run of nine digits beyond the masked positions is shown in full. */
  lemma LaterRunsUnmasked(s: string, k: nat, later: nat)
    requires DigitRunAt(s, k)
    requires forall k' :: 0 <= k' < k ==> !DigitRunAt(s, k')
    requires k + 7 <= later && DigitRunAt(s, later)
    ensures MaskText(s)[later..later + 9] == s[later..later + 9]
  {
    MaskLeftmostRun(s, k);
  }

  /** For a phone of digits only: the first three digits stay, then four stars,
      then every digit from the eighth on. Only a nine-digit phone keeps exactly
      its last two digits; a ten-digit phone keeps its last three. */
  lemma MaskAllDigits(s: string)
    requires |s| >= 9
    requires forall i :: 0 <= i < |s| ==> IsDigit(s[i])
    ensures MaskText(s) == s[..3] + "****" + s[7..]
  {
    assert DigitRunAt(s, 0);
  }

  // ---------------------------------------------------------------------------
  // pickedUsers / notPickedUsers

  /** `users.filter(p)`. */
  function Filter(users: seq<User>, p: User -> bool): (r: seq<User>)
    ensures forall u :: u in r <==> u in users && p(u)
    ensures |r| <= |users|
    decreases |users|
  {
    if users == [] then []
    else (if p(users[0]) then [users[0]] else []) + Filter(users[1..], p)
  }

  predicate IsPicked(u: User) {
    u.chosen
  }

  predicate IsNotPicked(u: User) {
    !u.chosen
  }

  function PickedUsers(allUsers: seq<User>): (r: seq<User>)
    ensures forall u :: u in r <==> u in allUsers && u.chosen
  {
    Filter(allUsers, IsPicked)
  }

  function NotPickedUsers(allUsers: seq<User>): (r: seq<User>)
    ensures forall u :: u in r <==> u in allUsers && !u.chosen
  {
    Filter(allUsers, IsNotPicked)
  }

  /** xs is ys with some elements deleted (the greedy match decides it). */
  ghost predicate IsSubsequence(xs: seq<User>, ys: seq<User>)
    decreases |ys|
  {
    if xs == [] then true
    else if ys == [] then false
    else if xs[0] == ys[0] then IsSubsequence(xs[1..], ys[1..])
    else IsSubsequence(xs, ys[1..])
  }

  lemma {:induction false} FilterIsSubsequence(users: seq<User>, p: User -> bool)
    ensures IsSubsequence(Filter(users, p), users)
    decreases |users|
  {
    if users != [] {
      FilterIsSubsequence(users[1..], p);
      var rest := Filter(users[1..], p);
      if p(users[0]) {
        assert Filter(users, p) == [users[0]] + rest;
        assert ([users[0]] + rest)[1..] == rest;
      } else {
        assert Filter(users, p) == rest;
        if rest != [] {
          assert rest[0] in rest;
          assert rest[0] != users[0];
        }
      }
    }
  }

  lemma {:induction false} FilterSplits(users: seq<User>, p: User -> bool, q: User -> bool)
    requires forall u :: q(u) == !p(u)
    ensures multiset(Filter(users, p)) + multiset(Filter(users, q)) == multiset(users)
    decreases |users|
  {
    if users != [] {
      var head, tail := users[0], users[1..];
      FilterSplits(tail, p, q);
      assert users == [head] + tail;
      assert multiset(users) == multiset{head} + multiset(tail);
      var yes, no := Filter(tail, p), Filter(tail, q);
      assert q(head) == !p(head);
      if p(head) {
        assert Filter(users, p) == [head] + yes;
        assert Filter(users, q) == no;
        assert multiset([head] + yes) == multiset{head} + multiset(yes);
      } else {
        assert Filter(users, p) == yes;
        assert Filter(users, q) == [head] + no;
        assert multiset([head] + no) == multiset{head} + multiset(no);
      }
    }
  }

  /** Every user lands in exactly one of the two lists, each list keeps the order
      of `allUsers`, and the lists are split by the `chosen` flag. */
  lemma PartitionByChosen(allUsers: seq<User>)
    ensures forall u :: u in PickedUsers(allUsers) <==> u in allUsers && u.chosen
    ensures forall u :: u in NotPickedUsers(allUsers) <==> u in allUsers && !u.chosen
    ensures multiset(PickedUsers(allUsers)) + multiset(NotPickedUsers(allUsers)) == multiset(allUsers)
    ensures IsSubsequence(PickedUsers(allUsers), allUsers)
    ensures IsSubsequence(NotPickedUsers(allUsers), allUsers)
  {
    FilterSplits(allUsers, IsPicked, IsNotPicked);
    FilterIsSubsequence(allUsers, IsPicked);
    FilterIsSubsequence(allUsers, IsNotPicked);
  }

  // ---------------------------------------------------------------------------
  // The two in-place sorts

  /** `(a, b) => a.assignedNumber - b.assignedNumber`. */
  function ByAssignedNumber(a: User, b: User): (r: int)
    ensures r < 0 <==> a.assignedNumber < b.assignedNumber
    ensures r == 0 <==> a.assignedNumber == b.assignedNumber
  {
    a.assignedNumber - b.assignedNumber
  }

  /** `(a, b) => a.name.localeCompare(b.name)`, the collation being a parameter. */
  function ByName(localeCompare: (string, string) -> int): (User, User) -> int {
    (a: User, b: User) => localeCompare(a.name, b.name)
  }

  lemma ByNameConsistent(localeCompare: (string, string) -> int)
    requires Sorting.Consistent(localeCompare)
    ensures Sorting.Consistent(ByName(localeCompare))
  {
    var cmp := ByName(localeCompare);
    forall x: User, y: User ensures cmp(x, y) <= 0 || cmp(y, x) <= 0 {
      assert cmp(x, y) == localeCompare(x.name, y.name);
      assert cmp(y, x) == localeCompare(y.name, x.name);
    }
    forall x: User, y: User, z: User | cmp(x, y) <= 0 && cmp(y, z) <= 0 ensures cmp(x, z) <= 0 {
      assert cmp(x, y) == localeCompare(x.name, y.name);
      assert cmp(y, z) == localeCompare(y.name, z.name);
      assert cmp(x, z) == localeCompare(x.name, z.name);
    }
  }

  /** The table of users with numbers: exactly the chosen users, by ascending number. */
  lemma PickedTableOrder(allUsers: seq<User>)
    ensures multiset(Sorting.InsertionSort(PickedUsers(allUsers), ByAssignedNumber)) == multiset(PickedUsers(allUsers))
    ensures forall u :: u in Sorting.InsertionSort(PickedUsers(allUsers), ByAssignedNumber) <==> u in allUsers && u.chosen
    ensures var t := Sorting.InsertionSort(PickedUsers(allUsers), ByAssignedNumber);
            forall i, j :: 0 <= i < j < |t| ==> t[i].assignedNumber <= t[j].assignedNumber
  {
    var t := Sorting.InsertionSort(PickedUsers(allUsers), ByAssignedNumber);
    Sorting.SortPermutes(PickedUsers(allUsers), ByAssignedNumber);
    Sorting.SortSorted(PickedUsers(allUsers), ByAssignedNumber);
    forall u ensures u in t <==> u in allUsers && u.chosen {
      assert u in t <==> u in multiset(t);
      assert u in PickedUsers(allUsers) <==> u in multiset(PickedUsers(allUsers));
    }
  }

  /** The table of users without numbers: exactly the others, ordered by name under
      the collation. */
  lemma NotPickedTableOrder(allUsers: seq<User>, localeCompare: (string, string) -> int)
    requires Sorting.Consistent(localeCompare)
    ensures multiset(Sorting.InsertionSort(NotPickedUsers(allUsers), ByName(localeCompare)))
            == multiset(NotPickedUsers(allUsers))
    ensures forall u :: u in Sorting.InsertionSort(NotPickedUsers(allUsers), ByName(localeCompare))
                        <==> u in allUsers && !u.chosen
    ensures var t := Sorting.InsertionSort(NotPickedUsers(allUsers), ByName(localeCompare));
            forall i, j :: 0 <= i < j < |t| ==> localeCompare(t[i].name, t[j].name) <= 0
  {
    var t := Sorting.InsertionSort(NotPickedUsers(allUsers), ByName(localeCompare));
    Sorting.SortPermutes(NotPickedUsers(allUsers), ByName(localeCompare));
    ByNameConsistent(localeCompare);
    Sorting.SortSorted(NotPickedUsers(allUsers), ByName(localeCompare));
    forall u ensures u in t <==> u in allUsers && !u.chosen {
      assert u in t <==> u in multiset(t);
      assert u in NotPickedUsers(allUsers) <==> u in multiset(NotPickedUsers(allUsers));
    }
    forall i, j | 0 <= i < j < |t| ensures localeCompare(t[i].name, t[j].name) <= 0 {
      assert ByName(localeCompare)(t[i], t[j]) <= 0;
    }
  }

  /** `picked.sort(...)`: sorts the state array in place and returns it. */
  method SortPicked(picked: array<User>) returns (sorted: array<User>)
    modifies picked
    ensures sorted == picked
    ensures picked[..] == Sorting.InsertionSort(old(picked[..]), ByAssignedNumber)
    ensures multiset(picked[..]) == multiset(old(picked[..]))
    ensures forall i, j :: 0 <= i < j < picked.Length ==> picked[i].assignedNumber <= picked[j].assignedNumber
  {
    Sorting.SortInPlace(picked, ByAssignedNumber);
    Sorting.SortPermutes(old(picked[..]), ByAssignedNumber);
    Sorting.SortSorted(old(picked[..]), ByAssignedNumber);
    sorted := picked;
  }

  /** `notPicked.sort(...)`: sorts the state array in place by name and returns it. */
  method SortNotPicked(notPicked: array<User>, localeCompare: (string, string) -> int) returns (sorted: array<User>)
    requires Sorting.Consistent(localeCompare)
    modifies notPicked
    ensures sorted == notPicked
    ensures notPicked[..] == Sorting.InsertionSort(old(notPicked[..]), ByName(localeCompare))
    ensures multiset(notPicked[..]) == multiset(old(notPicked[..]))
    ensures forall i, j :: 0 <= i < j < notPicked.Length ==>
              localeCompare(notPicked[i].name, notPicked[j].name) <= 0
  {
    Sorting.SortInPlace(notPicked, ByName(localeCompare));
    Sorting.SortPermutes(old(notPicked[..]), ByName(localeCompare));
    ByNameConsistent(localeCompare);
    Sorting.SortSorted(old(notPicked[..]), ByName(localeCompare));
    forall i, j | 0 <= i < j < notPicked.Length
      ensures localeCompare(notPicked[i].name, notPicked[j].name) <= 0
    {
      assert ByName(localeCompare)(notPicked[..][i], notPicked[..][j]) <= 0;
    }
    sorted := notPicked;
  }

  // ---------------------------------------------------------------------------
  // Redirects and fetchData

  /** The paths navigated to on mount, and whether `fetchData` is started. */
  datatype MountEffect = MountEffect(navigations: seq<string>, fetches: bool)

  /** The effect on mount: no stored user id navigates to /login and returns
      before fetching anything; otherwise nothing is navigated and the fetch starts. */
  function OnMount(userId: Option<string>): (e: MountEffect)
    ensures !TruthyString(userId) ==> e.navigations == ["/login"] && !e.fetches
    ensures TruthyString(userId) ==> e.navigations == [] && e.fetches
  {
    if !TruthyString(userId) then MountEffect(["/login"], false) else MountEffect([], true)
  }

  /** What one run of `fetchData` leaves on the page. */
  datatype FetchOutcome =
    | Failed                       // a request threw: the error message is shown
    | NavigateToPick               // the user has not chosen yet
    | Loaded(picked: seq<User>, notPicked: seq<User>, available: seq<int>, chosen: seq<int>)

  /** `fetchData`, each response given as None when its request throws. */
  function FetchData(userDetails: Option<User>, allUsers: Option<seq<User>>,
                     available: Option<seq<int>>, chosen: Option<seq<int>>): (r: FetchOutcome)
    ensures r == NavigateToPick <==> userDetails.Some? && !userDetails.value.chosen
    ensures r.Loaded? <==> userDetails.Some? && userDetails.value.chosen
                           && allUsers.Some? && available.Some? && chosen.Some?
    ensures r.Loaded? ==> r.picked == PickedUsers(allUsers.value)
                          && r.notPicked == NotPickedUsers(allUsers.value)
                          && r.available == available.value
                          && r.chosen == chosen.value
  {
    if userDetails.None? then Failed
    else if !userDetails.value.chosen then NavigateToPick
    else if allUsers.None? then Failed
    else if available.None? || chosen.None? then Failed
    else Loaded(PickedUsers(allUsers.value), NotPickedUsers(allUsers.value), available.value, chosen.value)
  }

  /** The redirect to /pick is decided before the user list is read: the outcome
      does not depend on any later response. */
  lemma RedirectBeforeLists(u: User, allUsers1: Option<seq<User>>, allUsers2: Option<seq<User>>,
                            available1: Option<seq<int>>, available2: Option<seq<int>>,
                            chosen1: Option<seq<int>>, chosen2: Option<seq<int>>)
    requires !u.chosen
    ensures FetchData(Some(u), allUsers1, available1, chosen1) == FetchData(Some(u), allUsers2, available2, chosen2)
  {
  }
}

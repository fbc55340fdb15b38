# chama number picker: a Dafny model of the client rules and the seed script

A small group of registered people each claim one number from a shared pool
(seeded as 1..10). Then they watch a dashboard of who holds which number. This
project models the rules that run in the browser pages and in the seed script:

- **Pick page** (`Pick`): the Fisher–Yates display shuffle of the available
  numbers, done in place on an array. Also the two guards of the "Pick a Number"
  handler and the candidate it submits. Also the merge of available and chosen
  numbers into one de-duplicated ascending list, and how each number box and the
  button are drawn.
- **Dashboard** (`Dashboard`): phone-number masking, the split of all users into
  "picked" and "not picked", the two in-place sorts of those lists, and the
  redirects taken before any list is read.
- **Login page** (`LoginPage`): where a successful login navigates, and the
  redirect taken on mount.
- **Seed script** (`Seed`): insert 1..10 into the available-numbers collection
  if and only if it is empty. The collection is a class with a sequence field.
- `Sorting` models `Array.prototype.sort(compare)`. It is a stable sort driven by
  a comparator that returns a negative, zero or positive number. The pure
  `InsertionSort` is the specification, and `SortInPlace` is the in-place array
  method proved equal to it. `JsValues` holds the JavaScript truthiness tests the
  pages use.

`Math.random()` becomes an argument: a real number `rand` with `0 <= rand < 1`.
`Math.floor(Math.random() * n)` becomes `RandomIndex(rand, n)`. The shuffle takes
one such value per loop iteration. `localeCompare` becomes a comparator parameter
that must be consistent (total and transitive). `navigate` calls become the
returned list of paths. A failing API request becomes `None`.

Where the code's comments and the code differ, the model follows the code:

- Masking keeps "all but the first 3 and last 2 digits" only for a phone of
  exactly nine digits. The regex `/(\d{3})\d{4}(\d{2})/` has no `g` flag. It
  rewrites only the leftmost run of nine ASCII digits, and only positions 4 to 7
  of that run. A ten-digit phone therefore keeps its last three digits visible
  (`MaskAllDigits`).
- The not-picked list is ordered by `localeCompare`, not by plain alphabetical
  order, as the comment at Dashboard.js:92 says. It is modelled with an abstract
  comparator.
- The login page's comment on mount says it redirects "to dashboard or intended
  page". The code navigates only when a navigation state is present, and then to
  `state.from`; with a stored user id and no state it stays on the login page
  (`LoginPage.OnMount`).

## Model

| member | source | states |
|---|---|---|
| `Pick.RandomIndex` | frontend/src/pages/Pick.js:92 | `Math.floor(Math.random() * n)` is always an index below `n` |
| `Pick.RandomIndexReachesAll` | frontend/src/pages/Pick.js:73 | every index below `n` is drawn for some random value |
| `Pick.Swap` | frontend/src/pages/Pick.js:74 | the swap exchanges positions i and j and leaves every other position alone |
| `Pick.SwapPermutes` | frontend/src/pages/Pick.js:74 | one swap keeps the multiset of elements |
| `Pick.ShuffleFrom` | frontend/src/pages/Pick.js:72-75 | the countdown loop from iteration i down to 1, one swap with `RandomIndex(rands[i], i + 1)` per iteration; that it keeps the length and multiset is `Pick.ShuffleFromPermutes` |
| `Pick.Shuffled` | frontend/src/pages/Pick.js:71-77 | what `shuffleArray` leaves in the array: the loop from `length - 1`; `Pick.ShuffleArray` is proved equal to it, and `Pick.ShuffledIsPermutation` and `Pick.ShortArraysUntouched` state its properties |
| `Pick.ShuffleFromPermutes` | frontend/src/pages/Pick.js:72-75 | the loop from any iteration down to 1 keeps the length and the multiset |
| `Pick.ShuffledIsPermutation` | frontend/src/pages/Pick.js:71-77 | the shuffled array is a permutation of the original (same length, same multiset) |
| `Pick.ShortArraysUntouched` | frontend/src/pages/Pick.js:72 | arrays of length 0 or 1 are left as they are |
| `Pick.ShuffleArray` | frontend/src/pages/Pick.js:71-77 | swaps in place with partners `0 <= j <= i`, returns the same array, and leaves a permutation of the original equal to the specification `Shuffled` |
| `Pick.HandlePickNumber` | frontend/src/pages/Pick.js:79-99 | no request when no number is available; otherwise no request when the user has already chosen; otherwise the submitted number is `available[index]` with `index < length` |
| `Pick.EveryAvailableNumberCanBePicked` | frontend/src/pages/Pick.js:92-93 | once the guards pass, each available number is submitted for some random value |
| `Pick.Dedup` | frontend/src/pages/Pick.js:52-55 | the Set keeps each value once and exactly the values of its input |
| `Pick.DistinctHasSingleCounts` | frontend/src/pages/Pick.js:52-55 | a list without repeats holds each value at most once as a multiset |
| `Pick.SingleCountsAreDistinct` | frontend/src/pages/Pick.js:56 | a list holding each value at most once has no repeats, so sorting a de-duplicated list keeps it repeat-free |
| `Pick.NumericOrder` | frontend/src/pages/Pick.js:56 | the comparator `(a, b) => a - b` is negative iff a < b and zero iff a == b; its consistency is used by `Pick.TotalNumbers` |
| `Pick.TotalNumbers` | frontend/src/pages/Pick.js:52-56 | the merged list holds every available and every chosen number and nothing else, and is strictly ascending (so it has no duplicates) |
| `Pick.StrictlyAscendingUnique` | frontend/src/pages/Pick.js:56 | two strictly ascending lists with the same elements are equal |
| `Pick.TotalNumbersIgnoresOrder` | frontend/src/pages/Pick.js:52-56 | the merged list depends only on which numbers are available, not on their order |
| `Pick.FetchData` | frontend/src/pages/Pick.js:43-63 | if either request throws, the three lists keep their previous values; otherwise the available list is a permutation of the response, the chosen list is the response, and the merged list is that of the responses, whatever the random draws |
| `Pick.Box` | frontend/src/pages/Pick.js:181-197 | the box for one number; what each box shows is stated per position by `Pick.RenderBoxes` |
| `Pick.RenderBoxes` | frontend/src/pages/Pick.js:180-201 | one box per merged number, in order; a box is drawn as chosen iff its number is chosen; the cursor is "not-allowed" iff the number is chosen or the user has already picked |
| `Pick.RenderButton` | frontend/src/pages/Pick.js:170-176 | the button is disabled iff there are no available numbers, or loading, or the user has already chosen; its text is "Submitting..." while loading |
| `Pick.BoxesShowAvailability` | frontend/src/pages/Pick.js:180-196 | each available or chosen number has exactly one box, boxes run ascending, and a box is green iff its number is available and not chosen |
| `Pick.ShowsEmptyNotice` | frontend/src/pages/Pick.js:205 | the notice is shown when the merged list is empty; `Pick.EmptyNoticeIffNoNumbers` states when that happens |
| `Pick.EmptyNoticeIffNoNumbers` | frontend/src/pages/Pick.js:205-209 | the empty notice shows iff no number is available or chosen |
| `Pick.ButtonMatchesHandler` | frontend/src/pages/Pick.js:173 | an enabled button always leads to a submission; when not loading, the button is disabled iff a click would not submit |
| `Pick.OnMount` | frontend/src/pages/Pick.js:19-24 | without a truthy stored user id the page navigates to exactly /login, otherwise nowhere |
| `Pick.AfterUserFetched` | frontend/src/pages/Pick.js:33-36 | a user who has chosen is sent to exactly /dashboard, any other user stays |
| `Dashboard.FindDigitRun` | frontend/src/pages/Dashboard.js:22 | finds the leftmost position where nine digits start, or reports that there is none |
| `Dashboard.MaskText` | frontend/src/pages/Dashboard.js:22 | the replacement keeps the length |
| `Dashboard.MaskPhoneNumber` | frontend/src/pages/Dashboard.js:19-23 | a falsy phone (missing or empty) is returned unchanged; any other phone is `MaskText` of it, so the masking lemmas apply, and keeps its length |
| `Dashboard.MaskWithoutRun` | frontend/src/pages/Dashboard.js:22 | text without nine consecutive digits is unchanged |
| `Dashboard.MaskLeftmostRun` | frontend/src/pages/Dashboard.js:22 | only the leftmost nine-digit run changes: its first 3 and last 2 digits are kept and its middle 4 become `*` |
| `Dashboard.LaterRunsUnmasked` | frontend/src/pages/Dashboard.js:22 | a nine-digit run starting at or after k+7, past the stars of the leftmost run at k, is shown in full, because the regex has no `g` flag |
| `Dashboard.MaskAllDigits` | frontend/src/pages/Dashboard.js:21-22 | an all-digit phone shows its first 3 digits, four stars, then every digit from the eighth on |
| `Dashboard.Filter` | frontend/src/pages/Dashboard.js:49-50 | `filter` keeps exactly the users that satisfy the test |
| `Dashboard.PickedUsers` | frontend/src/pages/Dashboard.js:49 | `pickedUsers` holds exactly the users of `allUsers` whose `chosen` is true |
| `Dashboard.NotPickedUsers` | frontend/src/pages/Dashboard.js:50 | `notPickedUsers` holds exactly the users of `allUsers` whose `chosen` is false |
| `Dashboard.FilterIsSubsequence` | frontend/src/pages/Dashboard.js:49-50 | a filtered list keeps the relative order of the input |
| `Dashboard.FilterSplits` | frontend/src/pages/Dashboard.js:49-50 | filtering by a test and by its negation splits the multiset of the input |
| `Dashboard.PartitionByChosen` | frontend/src/pages/Dashboard.js:48-50 | `pickedUsers` and `notPickedUsers` partition `allUsers` by `chosen`: every user lands in exactly one list, and order is kept |
| `Dashboard.ByAssignedNumber` | frontend/src/pages/Dashboard.js:90 | the comparator is negative iff the first user's number is smaller and zero iff the numbers are equal |
| `Dashboard.ByName` | frontend/src/pages/Dashboard.js:93 | compares two users by their names under the collation; its consistency is `Dashboard.ByNameConsistent` |
| `Dashboard.ByNameConsistent` | frontend/src/pages/Dashboard.js:93 | comparing users by name is consistent when the collation is |
| `Dashboard.PickedTableOrder` | frontend/src/pages/Dashboard.js:89-90 | the picked table is a permutation of the chosen users and is non-decreasing by `assignedNumber` |
| `Dashboard.NotPickedTableOrder` | frontend/src/pages/Dashboard.js:92-93 | the not-picked table is a permutation of the other users, ordered by name under the collation |
| `Dashboard.SortPicked` | frontend/src/pages/Dashboard.js:90 | the in-place sort returns the same array, leaves a permutation, and is non-decreasing by `assignedNumber` |
| `Dashboard.SortNotPicked` | frontend/src/pages/Dashboard.js:93 | the in-place sort returns the same array, leaves a permutation, and is ordered by name |
| `Dashboard.OnMount` | frontend/src/pages/Dashboard.js:26-31 | without a truthy stored user id the page navigates to exactly /login and fetches nothing; otherwise it navigates nowhere and starts the fetch |
| `Dashboard.FetchData` | frontend/src/pages/Dashboard.js:33-68 | a fetched user with `chosen` false navigates to /pick; lists are loaded only for a chosen user once every request succeeds, and then the user lists are the two filters and the number lists are the two responses |
| `Dashboard.RedirectBeforeLists` | frontend/src/pages/Dashboard.js:39-46 | the redirect to /pick does not depend on any later response |
| `Sorting.InsertionSort` | frontend/src/pages/Pick.js:56 | the stable sort `sort` performs; that it permutes its input and orders it is stated by `Sorting.SortPermutes` and `Sorting.SortSorted` |
| `Sorting.SortPermutes` | frontend/src/pages/Pick.js:56 | `sort` returns a permutation of its input |
| `Sorting.SortSorted` | frontend/src/pages/Dashboard.js:90 | under a consistent comparator `sort` returns an ordered list |
| `Sorting.InsertPermutes` | frontend/src/pages/Dashboard.js:93 | one insertion adds exactly the inserted element |
| `Sorting.InsertSorted` | frontend/src/pages/Dashboard.js:93 | inserting into an ordered list keeps it ordered |
| `Sorting.SortInPlace` | frontend/src/pages/Dashboard.js:89-93 | the in-place sort leaves the array equal to the stable sort of its old contents |
| `Sorting.InsertInPlace` | frontend/src/pages/Dashboard.js:90 | one step of the in-place sort: the first i+1 cells become the old prefix with the old a[i] inserted, and the cells after them are unchanged |
| `LoginPage.OnLoginSuccess` | frontend/src/pages/LoginPage.js:23-33 | exactly one navigation: to `state.from` when a navigation state exists, whatever `assignedNumber` is; otherwise to /dashboard for a truthy `assignedNumber` and to /pick for a falsy one |
| `LoginPage.OnMount` | frontend/src/pages/LoginPage.js:9-21 | navigates, once, to `state.from` only when a user id is stored AND a navigation state is present; otherwise nowhere |
| `LoginPage.LoginLandsOnSettledPage` | frontend/src/pages/LoginPage.js:27-32 | with a response that matches the user record, login without a state sends a chosen user to the dashboard, which keeps them, and any other user to the pick page, which keeps them |
| `Seed.Range` | backend/seed.js:17-19 | the loop builds lo, lo+1, ..., hi: the right length with element k equal to lo + k |
| `Seed.SeedBatch` | backend/seed.js:16-19 | the batch the loop builds; its shape is `Seed.SeedBatchShape` |
| `Seed.Seeded` | backend/seed.js:12-24 | the collection after one run: the batch is added to an empty collection, any other is kept (`Seed.SeedOnlyWhenEmpty`) |
| `Seed.SeedBatchShape` | backend/seed.js:16-19 | the inserted batch is exactly [1, ..., 10]: ascending, distinct, each within 1..10 |
| `Seed.SeedOnlyWhenEmpty` | backend/seed.js:12-24 | numbers are inserted only when the count is 0; a non-empty collection is unchanged |
| `Seed.SeedIdempotent` | backend/seed.js:12-21 | running the seed twice gives the same collection as running it once |
| `Seed.AvailableNumberCollection.InsertMany` | backend/seed.js:21 | the batch is appended to the collection in order |
| `Seed.AvailableNumberCollection.SeedAvailableNumbers` | backend/seed.js:9-25 | the loop builds the batch 1..10, and the collection afterwards is the seeded collection of its old contents |

## Left out

- React machinery: rendering, hooks, state setters, `alert`, `console` logging. The model keeps only the decisions these act on. `navigate` is modelled as a returned list of paths.
- Browser storage: the stored user id is an argument. The 5-second polling of the dashboard is timing, and each poll is one more run of `Dashboard.FetchData`.
- Floating point: `Math.random()` is an ideal real in [0, 1). The model shows every index can be drawn. It does not model the probability distribution of the shuffle or of the pick.
- Locale collation: `localeCompare` is a comparator parameter that is assumed consistent.
- `Sorting.InsertionSort` is a stable sort, as `Array.prototype.sort` must be. No lemma states stability on its own.
- `Dashboard.User`: `assignedNumber` is an integer. A chosen user record without a number makes the JavaScript comparator return NaN, which is treated as 0; that case is not modelled.
- `Dashboard.FetchData`: a request that throws gives `Failed`. The state set earlier in that same run (`setUser`, `setPicked`) is not modelled. The page's loading and error rendering is not modelled either.
- Pick page `fetchData`: a failed request is `None` and keeps the previous lists (`Pick.FetchData`). A response that is not a list of records with a `number` field, which makes `map` throw, is not modelled separately.
- Pick page `fetchUserData`: its error path is only an alert, and only its redirect (`Pick.AfterUserFetched`) is modelled. The refresh after a submission is not modelled, and neither is the response's message.
- `LoginPage.OnLoginSuccess`: `state.from` is assumed to be a string. A state object without `from` is not modelled.
- JavaScript truthiness: a `NaN` assigned number is not modelled.
- The server side of picking (the route that assigns a number atomically) and its concurrency are not part of this model. The client only chooses a candidate. So the model makes no claim that assignments are globally unique.
- Seed script: connecting to the database, closing the connection, and errors from `countDocuments` or `insertMany` are left out. Counting and then inserting is not atomic, so two concurrent seeders are not modelled.
- Express server wiring, the database connection module and the login form component hold no logic beyond I/O and are not part of this model.

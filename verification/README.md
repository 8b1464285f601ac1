# Parking raffle: a Dafny model

This project models the core of a parking-management front end: its mock
backend and the pure logic of the screens that sit on it.

The mock backend is an in-memory database of users, parking spots, raffle
registrations, raffles and an assignment ledger. Its operations are these:

- sign-up and login;
- listing and updating spots;
- searching residents;
- the quarterly raffle.

A raffle releases every assigned spot. It then puts the residents who did not
win the previous raffle ahead of those who did, shuffles each group and the
free spots with Fisher–Yates, and pairs residents with spots in that order.
Each resident's history is one "Selected" or "Not selected" row per cycle
they registered for.

The front-end logic modelled is this:

- the pagination control's arithmetic;
- the data table's search filter, column sort and page slice;
- checkbox and radio groups, with their accessibility wiring;
- the validation of the sign-up, resident and login forms;
- the route guard that keeps residents out of the admin page.

The database is an immutable value (`MockDb.Db`). Every endpoint is a pure
function from a state to an `Outcome`: the next state, plus the value it
returns or the message of the error it throws. `Math.random()` is a stream of
draws in [0, 1) passed in as `rs`, and every property about a raffle holds for
every such stream. Generated ids and timestamps (`crypto.randomUUID`,
`new Date().toISOString()`) are parameters too.

The modules follow the source files:

| module | models |
|---|---|
| `Utils` | `shuffle` and `quarterCycle` |
| `MockDb` | the record types, the default seed and `resetDB` |
| `Raffles` | `current`, `register`, `list`, `get`, `run` and `historyByResident` |
| `Auth` | `normalizeEmail`, `login` and `register` |
| `Spots` | spot `list` and `update` |
| `Residents` | resident `list` |
| `Pagination` | `Pagination` |
| `DataTable` | `DataTable` |
| `Describe`, `CheckboxGroup`, `RadioGroup` | the two groups |
| `RegisterPage`, `ResidentForm`, `LoginPage` | the three forms |
| `Navigation` | `RoutesList` |

Four support modules stand in for JavaScript built-ins:

- `Text`: `trim`, `toLowerCase`, `includes`, number printing, and the
  `length` of a string in UTF-16 code units (`Text.Utf16Length`), since a
  Dafny string counts code points;
- `Seqs`: `filter`, `find` and `Array.from(new Set(..))`;
- `StrOrder`: `localeCompare`;
- `Sorting`: a stable `Array.prototype.sort`.

`Wrappers` holds `Option` and `Result`.

The sign-up page and the sign-in page do not agree on what a password is.
Sign-up only counts its length, so six spaces are accepted and registered.
Sign-in trims the password before checking it is present, so it refuses the
same six spaces as missing (`LoginPage.SignUpThenSignIn`,
`LoginPage.BlankPasswordExample`).

On which raffle counts as "the previous one", this model follows the code: it
is the last raffle in the stored list, whatever its cycle.

## Model

| member | source | states |
|---|---|---|
| Utils.SwapIndex | frontend/_mocks_/utils.ts:13 | every draw in [0, 1) yields a swap partner between 0 and the current index, so no shuffle step reads outside the array |
| Utils.Shuffle | frontend/_mocks_/utils.ts:10-17 | the result is a permutation of the input; exactly n-1 draws are consumed; arrays of length 0 or 1 come back unchanged |
| Utils.ShuffleKeepsElements | frontend/_mocks_/utils.ts:10-17 | a shuffle keeps exactly the input's elements and keeps a duplicate-free array duplicate-free |
| Utils.Quarter | frontend/_mocks_/utils.ts:6 | a month index 0..11 maps to the quarter 1..4 whose three months contain it |
| Utils.QuarterCycle | frontend/_mocks_/utils.ts:5-8 | the label is the year's decimal text, then "-Q", then one more character |
| Utils.QuarterCycleOrder | frontend/_mocks_/utils.ts:5-8 | January–March give Q1 and October–December give Q4; two months share a label exactly when they share a quarter; within a year a later quarter's label sorts later |
| MockDb.SeedUsersFacts | frontend/_mocks_/db.ts:51-236 | the seed has 21 users with distinct ids u1..u21, and u1 is the only ADMIN |
| MockDb.SeedSpotsFacts | frontend/_mocks_/db.ts:239-246 | the seed has 16 spots A1..D4 with distinct ids, all available and unheld |
| MockDb.SeedRegistrationsFacts | frontend/_mocks_/db.ts:252-550 | the seed has 59 registrations: u2–u21 for 2024-Q4 and for 2025-Q1, then u2–u20 for 2025-Q2, each block one minute apart from 10:00 on its day; no resident is registered twice for a cycle |
| MockDb.DefaultDbWellFormed | frontend/_mocks_/db.ts:50-554 | the default state is well formed and holds no raffle and no assignment |
| MockDb.ResetDb | frontend/_mocks_/db.ts:574-577 | whatever the current state, a reset yields exactly the seed state `DefaultDb`, which is well formed, with 21 users, 59 registrations, 16 available spots, no raffle and no assignment |
| Raffles.CycleRegistrations | frontend/_mocks_/raffles.ts:96 | a row is kept exactly when it is a registration for the cycle |
| Raffles.CurrentCount | frontend/_mocks_/raffles.ts:17-25 | the count is zero exactly when nobody is registered for the cycle, and it never exceeds the number of registrations |
| Raffles.Candidates | frontend/_mocks_/raffles.ts:96-97 | the candidates are exactly the residents registered for the cycle, each listed once |
| Raffles.CurrentCountIsCandidates | frontend/_mocks_/raffles.ts:17-25 | when no resident is registered twice for a cycle, the count `current` reports equals the number of candidates `run` draws from |
| Raffles.Register | frontend/_mocks_/raffles.ts:31-55 | registration succeeds exactly for a RESIDENT id and otherwise fails with "No resident found in mock DB" and no change; on success the resident is registered for the cycle; at most one row is appended and nothing else changes |
| Raffles.RegisterIdempotent | frontend/_mocks_/raffles.ts:41-52 | a second registration, at any later time, changes nothing and gives the same result |
| Raffles.RegisterCount | frontend/_mocks_/raffles.ts:41-52 | a first registration adds exactly one row for the cycle; a repeated one leaves the state as it was |
| Raffles.RegisterKeepsUnique | frontend/_mocks_/raffles.ts:41-52 | registration never creates a second row for the same cycle and resident |
| Raffles.List | frontend/_mocks_/raffles.ts:61-65 | the raffles are listed newest first: the list is the stored list reversed |
| Raffles.Get | frontend/_mocks_/raffles.ts:71-77 | the lookup succeeds exactly when some raffle has the id and returns the first one; otherwise it fails with "Not found" |
| Raffles.PreviousWinners | frontend/_mocks_/raffles.ts:125-128 | the previous winners are exactly the winners of the last raffle in the list, and there are none when no raffle exists |
| Raffles.HasRaffle | frontend/_mocks_/raffles.ts:90-91 | the lookup finds a raffle exactly when some stored raffle is for the cycle |
| Raffles.AlreadyRun | frontend/_mocks_/raffles.ts:92 | the error message quotes the cycle, so different cycles give different messages |
| Raffles.Reclaim | frontend/_mocks_/raffles.ts:117-122 | every assigned spot becomes available with no resident; reserved, maintenance and available spots are untouched; ids are kept |
| Raffles.FreePositions | frontend/_mocks_/raffles.ts:140 | these are exactly the positions of the available spots, each listed once |
| Raffles.GroupA | frontend/_mocks_/raffles.ts:131 | group A holds the candidates who did not win the previous raffle |
| Raffles.GroupB | frontend/_mocks_/raffles.ts:132 | group B holds the candidates who did win the previous raffle |
| Raffles.GroupsPartition | frontend/_mocks_/raffles.ts:131-132 | the two groups split the candidates: together they hold every candidate exactly once |
| Raffles.Prioritize | frontend/_mocks_/raffles.ts:137 | the priority order is a permutation of the candidates in which no previous winner precedes a candidate who is not one |
| Raffles.ConcatOrdered | frontend/_mocks_/raffles.ts:137 | putting non-winners before winners yields a priority order |
| Raffles.Plan | frontend/_mocks_/raffles.ts:131-142 | for any draws, the priority order is a fair permutation of the candidates and the spot order is a permutation of the spots free after reclamation |
| Raffles.Pair | frontend/_mocks_/raffles.ts:146-162 | each drawn spot is assigned to its paired resident; a spot not drawn is unchanged; ids never change |
| Raffles.LedgerRows | frontend/_mocks_/raffles.ts:155-161 | the ledger gets one row per winner, in order, with the cycle, the winner's spot and resident, and the time |
| Raffles.Commit | frontend/_mocks_/raffles.ts:142-175 | the number of winners is the smaller of the order and the spot pool; the k-th winner is the k-th resident of the order with the k-th drawn spot; the raffle and the ledger rows are appended; users and registrations are unchanged |
| Raffles.Run | frontend/_mocks_/raffles.ts:86-176 | a run fails exactly when the cycle already has a raffle, with the "already been run" message and no change; otherwise it appends one raffle for the cycle; with no candidates the raffle has no winners and no spot changes; users and registrations never change |
| Raffles.FreePositionsCount | frontend/_mocks_/raffles.ts:117-140 | after reclamation, the spot pool is the set of spots that were available or assigned |
| Raffles.OrderFacts | frontend/_mocks_/raffles.ts:96-137 | a permutation of the candidates names every registered resident exactly once |
| Raffles.PositionFacts | frontend/_mocks_/raffles.ts:140-141 | a shuffled spot pool visits each free spot exactly once |
| Raffles.PlanPositionsDistinct | frontend/_mocks_/raffles.ts:140-142 | no spot is drawn twice |
| Raffles.PlanPositionsFree | frontend/_mocks_/raffles.ts:117-142 | every drawn spot is available once assigned spots are released |
| Raffles.RunCommitsPlan | frontend/_mocks_/raffles.ts:99-176 | a run with candidates commits exactly the shuffles `Plan` makes |
| Raffles.RunWinnerCount | frontend/_mocks_/raffles.ts:142 | the number of winners is the smaller of the number of distinct registered residents and the number of spots that are available or assigned before the run |
| Raffles.RunWinnersDistinct | frontend/_mocks_/raffles.ts:96-150 | the winners are distinct residents, each registered for the cycle |
| Raffles.RunWinnerSpots | frontend/_mocks_/raffles.ts:140-150 | every winner's spot was available or assigned before the run, never reserved or in maintenance |
| Raffles.RunWinnerSpotsDistinct | frontend/_mocks_/raffles.ts:140-153 | no spot id goes to two winners when the spot ids are distinct |
| Raffles.CommitWinnerSpots | frontend/_mocks_/raffles.ts:146-153 | with distinct free positions, each winner's spot is a free spot at a distinct position |
| Raffles.PrefixFairness | frontend/_mocks_/raffles.ts:137-148 | every prefix of a priority order is ordered; a prefix that reaches a previous winner holds every candidate who is not one |
| Raffles.RunFairness | frontend/_mocks_/raffles.ts:124-137 | among the winners no previous winner precedes a non-winner, and a previous winner wins only when every registered resident who did not win last time wins too |
| Raffles.RunReleasesSpots | frontend/_mocks_/raffles.ts:117-122 | after a run with candidates, a spot no winner took is available and unheld if it had been assigned, and unchanged otherwise; reserved and maintenance spots never change |
| Raffles.RunAssignsSpots | frontend/_mocks_/raffles.ts:146-153 | after a run with candidates each winner's spot is assigned to that winner, and every assigned spot belongs to a winner |
| Raffles.CommitUntouched | frontend/_mocks_/raffles.ts:146-162 | when the drawn positions are distinct free spots, a spot no winner took ends as reclamation left it |
| Raffles.CommitAssigned | frontend/_mocks_/raffles.ts:146-162 | when the drawn positions are distinct, spots are assigned exactly to the winners |
| Raffles.CommitWinnersHoldSpots | frontend/_mocks_/raffles.ts:150-153 | each winner's spot is assigned to that winner |
| Raffles.CommitAssignedToWinners | frontend/_mocks_/raffles.ts:152-153 | every spot assigned after the commit belongs to a winner |
| Raffles.RunKeepsWellFormed | frontend/_mocks_/raffles.ts:86-176 | a run keeps spot ids unique, registrations unique per cycle and at most one raffle per cycle |
| Raffles.ListAfterRun | frontend/_mocks_/raffles.ts:61-65 | after a run, the list shows the new raffle first, then the earlier ones in the same order |
| Raffles.GetAfterRun | frontend/_mocks_/raffles.ts:71-77 | after a run under a fresh id, looking that id up returns the new raffle |
| Raffles.GetAppended | frontend/_mocks_/raffles.ts:74-76 | a raffle appended under an id no earlier raffle has is found by that id |
| Raffles.RegisteredCycles | frontend/_mocks_/raffles.ts:190-193 | these are exactly the cycles the resident registered for, each listed once |
| Raffles.CyclesOf | frontend/_mocks_/raffles.ts:190-192 | a cycle is listed exactly when some registration is for it |
| Raffles.HistoryRowOf | frontend/_mocks_/raffles.ts:195-204 | a row says "Selected" exactly when the ledger has an assignment for the resident in that cycle, and then gives the spot of the first such row; otherwise it says "Not selected" with no spot |
| Raffles.ByCycleTotalPreorder | frontend/_mocks_/raffles.ts:207 | the cycle comparator orders every pair of rows, transitively |
| Raffles.HistoryRows | frontend/_mocks_/raffles.ts:195-204 | there is one row per registered cycle, in registration order, and each row is that cycle's verdict |
| Raffles.HistoryByResident | frontend/_mocks_/raffles.ts:183-210 | the history is a permutation of the per-cycle rows |
| Raffles.HistoryCoversCycles | frontend/_mocks_/raffles.ts:189-204 | the history has exactly one row per cycle the resident registered for, and each row is that cycle's verdict |
| Raffles.HistorySorted | frontend/_mocks_/raffles.ts:206-207 | the history is in strictly increasing cycle order |
| Raffles.HistoryHasRow | frontend/_mocks_/raffles.ts:189-204 | each cycle the resident registered for has its verdict row in the history |
| Raffles.HistoryRowAfterLedger | frontend/_mocks_/raffles.ts:195-204 | after one ledger row per distinct winner is appended to a ledger with no row for the resident in that cycle, the cycle's verdict is "Selected" with the resident's own spot when they won, and "Not selected" with no spot otherwise |
| Raffles.RunThenHistory | frontend/_mocks_/raffles.ts:86-210 | after a run, a registered resident with no earlier ledger row for the cycle finds it in the history as "Selected" with the won spot when picked, and as "Not selected" with no spot otherwise |
| Auth.NormalizeEmail | frontend/_mocks_/auth.ts:7-9 | the normalised address is the trimmed input with each character lower-cased in place, so it has no surrounding white space and no capital letter |
| Auth.NormalizeEmailIdempotent | frontend/_mocks_/auth.ts:7-9 | normalising twice is normalising once |
| Auth.NormalizeEmailEquivalent | frontend/_mocks_/auth.ts:7-9 | two addresses that differ only in white space around them or in the case of ASCII letters normalise to the same address |
| Auth.Login | frontend/_mocks_/auth.ts:11-21 | login succeeds exactly when some user has the same normalised e-mail and the identical password, and it returns the first such user's role, id and name; otherwise it fails with "Invalid email or password" |
| Auth.LoginOfFirst | frontend/_mocks_/auth.ts:14-18 | login returns the user at the first index that accepts the credentials |
| Auth.LoginFindsAppended | frontend/_mocks_/auth.ts:14-18 | a user appended after users none of whom accept the credentials is the one who logs in, when that user accepts them |
| Auth.Register | frontend/_mocks_/auth.ts:23-61 | the errors come in order: e-mail in use, then blank name, then a password shorter than 6 UTF-16 code units, each leaving the state unchanged; otherwise one RESIDENT user is appended and its role, id, name and vehicle are returned |
| Auth.RegisterStoresNormalised | frontend/_mocks_/auth.ts:41-50 | the new user is a RESIDENT with a normalised e-mail and a trimmed, non-empty name |
| Auth.RegisterThenLogin | frontend/_mocks_/auth.ts:11-61 | after a successful sign-up, logging in with the same password and any address that normalises to the same e-mail returns the new user |
| Auth.RegisterTwiceRefused | frontend/_mocks_/auth.ts:31-34 | a second sign-up with an address that normalises to the same e-mail fails with "Email already in use" |
| Spots.StatusNameInjective | frontend/_mocks_/db.ts:19-20 | distinct statuses have distinct names |
| Spots.UserWithId | frontend/_mocks_/spots.ts:15 | the lookup finds the first user with the id, and finds none exactly when no user has it |
| Spots.ResidentName | frontend/_mocks_/spots.ts:14-16 | a name is attached exactly when the spot's resident id is a non-empty string that some user has, and it is the name of the first user with that id; a spot whose id no user has gets no name |
| Spots.Shown | frontend/_mocks_/spots.ts:8-10 | without a status, or with an empty one, every spot is shown in order; with a non-empty status, a spot is shown exactly when it is stored with that status |
| Spots.List | frontend/_mocks_/spots.ts:5-18 | there is one row per shown spot, in order, each carrying that spot and its holder's name |
| Spots.ListByStatus | frontend/_mocks_/spots.ts:8-10 | with a non-empty status, every listed spot has that status |
| Spots.ListByStatusMembers | frontend/_mocks_/spots.ts:8-10 | with a non-empty status, a spot is listed exactly when it is stored with that status |
| Spots.ListAll | frontend/_mocks_/spots.ts:8-10 | without a status, or with an empty one, every spot is listed in order |
| Spots.Apply | frontend/_mocks_/spots.ts:28 | a field in the patch overwrites the stored one; an absent field is kept; the id never changes |
| Spots.ApplyEmpty | frontend/_mocks_/spots.ts:28 | an empty patch changes nothing |
| Spots.Update | frontend/_mocks_/spots.ts:20-31 | an unknown id fails with "Spot not found" and no change; otherwise the first spot with the id takes the patch and is returned |
| Spots.UpdateOnlyTarget | frontend/_mocks_/spots.ts:26-28 | a successful update changes only one spot with the requested id, and every spot keeps its id |
| Spots.UpdateKeepsUniqueIds | frontend/_mocks_/spots.ts:26-28 | an update keeps spot ids unique |
| Spots.UpdateEmptyPatch | frontend/_mocks_/spots.ts:20-31 | an update with an empty body leaves the database as it was |
| Residents.List | frontend/_mocks_/residents.ts:5-23 | there are never more rows than users; search results always show the dash as the vehicle |
| Residents.ListOnlyResidents | frontend/_mocks_/residents.ts:8 | every listed row is the row of a RESIDENT |
| Residents.ListAllResidents | frontend/_mocks_/residents.ts:9-15 | with an empty query, the rows are all residents in order, each with its stored vehicle or the dash |
| Residents.ListSearch | frontend/_mocks_/residents.ts:16-22 | with a non-empty query, the rows are exactly the residents whose lower-cased name or e-mail contains the lower-cased query, in order |
| Residents.ListSearchIgnoresCase | frontend/_mocks_/residents.ts:16-20 | a query and its lower-cased form give the same rows |
| Pagination.PageCount | frontend/src/components/molecules/Pagination.tsx:13 | the page count is at least 1, holds every item, and the last page is not empty unless there are no items |
| Pagination.PageCountLeast | frontend/src/components/molecules/Pagination.tsx:13 | no smaller page count holds every item |
| Pagination.Render | frontend/src/components/molecules/Pagination.tsx:12-21 | the page count is the least one holding every item; Prev is enabled exactly past page 1 and Next exactly before the last page; the range runs from the page's first item number, `(page - 1) * pageSize + 1`, to its last one or the total, whichever is smaller, so it never passes the total and spans at most one page |
| Pagination.PrevTarget | frontend/src/components/molecules/Pagination.tsx:27 | Prev asks for the page just before, the one from which Next leads back |
| Pagination.NextTarget | frontend/src/components/molecules/Pagination.tsx:37 | Next asks for the page just after |
| Pagination.RangeText | frontend/src/components/molecules/Pagination.tsx:19-22 | the range line begins with "Showing " and ends with the total |
| Pagination.PageText | frontend/src/components/molecules/Pagination.tsx:31-33 | the page line begins with the page number and " / " and ends with the page count |
| Pagination.RenderInRange | frontend/src/components/molecules/Pagination.tsx:12-21 | on an existing page the "Showing a-b" range lies within 1..total and is a full page except on the last page; Prev is enabled exactly when items precede the range, and Next exactly when items follow it |
| Pagination.RenderItems | frontend/src/components/molecules/Pagination.tsx:20 | item k of the total is in the range shown for a page exactly when that page is the one item k falls on, `(k - 1) / pageSize + 1` |
| Pagination.TargetsAdjacent | frontend/src/components/molecules/Pagination.tsx:20-37 | paging neither skips nor repeats items: Next shows the range starting right after the current one, Prev the range ending right before it |
| Pagination.TargetsExist | frontend/src/components/molecules/Pagination.tsx:24-40 | an enabled button asks for a page that exists; Prev is disabled only on page 1 and Next only on the last page |
| Pagination.Examples | frontend/src/components/molecules/Pagination.test.tsx:30-127 | for 42 items at 10 per page there are 5 pages, page 3 reads "3 / 5", Prev is disabled on page 1 and Next on page 5, and the buttons ask for pages 2 and 3; 5 items make "1 / 1" with both buttons disabled |
| Pagination.RangeExamples | frontend/src/components/molecules/Pagination.test.tsx:19-111 | for 42 items at 10 per page, page 2 shows "Showing 11-20 of 42" and page 5 shows "Showing 41-42 of 42" |
| Describe.DescribedBy | frontend/src/components/molecules/RadioGroup.tsx:28-30 | with help only the description is the help id, with an error only it is the error id, with both it is the two joined by one space, and there is none when neither is given |
| Describe.DescribedByReadBack | frontend/src/components/molecules/RadioGroup.tsx:28-30 | the description starts with the help id exactly when help text is given, and ends with the error id exactly when an error is given |
| Describe.AriaInvalid | frontend/src/components/molecules/RadioGroup.tsx:44 | an input is marked invalid exactly when a non-empty error is given |
| Describe.DescribedByExamples | frontend/src/components/molecules/RadioGroup.test.tsx:59-80 | with both texts for `favorite-color` the description is "favorite-color-help favorite-color-error"; with one text it is that one id |
| CheckboxGroup.Toggle | frontend/src/components/molecules/CheckboxGroup.tsx:31-35 | the result has no duplicates; the toggled value is present exactly when it was absent; every other value keeps its membership |
| CheckboxGroup.ToggleTwice | frontend/src/components/molecules/CheckboxGroup.tsx:31-35 | toggling the same value twice restores the selection |
| CheckboxGroup.ToggleKeepsOrder | frontend/src/components/molecules/CheckboxGroup.test.tsx:46-71 | on a duplicate-free list, toggling an absent value appends it, and toggling a present value removes it and keeps the rest in order |
| CheckboxGroup.Checked | frontend/src/components/molecules/CheckboxGroup.tsx:57 | a box is checked exactly when its value is selected |
| CheckboxGroup.ToggleFlipsOneBox | frontend/src/components/molecules/CheckboxGroup.tsx:31-57 | a click flips that box and no other |
| RadioGroup.Radios | frontend/src/components/molecules/RadioGroup.tsx:36-48 | there is one radio per item, in order, checked exactly when its value is the group value and invalid exactly when an error is given |
| RadioGroup.AtMostOneChecked | frontend/src/components/molecules/RadioGroup.tsx:41 | with distinct item values at most one radio is checked, and one is checked exactly when the group value is an item value |
| RadioGroup.Clicked | frontend/src/components/molecules/RadioGroup.tsx:40-43 | a click reports the clicked item's value exactly when a handler is given and the item is not disabled |
| RadioGroup.ClickSelects | frontend/src/components/molecules/RadioGroup.tsx:36-43 | with distinct item values, once a reported click is stored as the group value, the clicked radio is the only checked one |
| DataTable.Filtered | frontend/src/components/organisms/DataTable.tsx:48-59 | a blank query keeps every row; otherwise a row is kept exactly when the lower-cased text of some searchable key contains the lower-cased query |
| DataTable.FilteredInOrder | frontend/src/components/organisms/DataTable.tsx:52-58 | a non-blank query keeps exactly the matching rows, in their original order |
| DataTable.CompareValues | frontend/src/components/organisms/DataTable.tsx:65-73 | two missing values tie; a missing value sorts first when ascending and last when descending; two present values tie only when equal |
| DataTable.CompareValuesTotal | frontend/src/components/organisms/DataTable.tsx:65-73 | every pair of values is ordered one way or the other |
| DataTable.CompareValuesTransitive | frontend/src/components/organisms/DataTable.tsx:65-73 | the value comparator is transitive |
| DataTable.ComparatorTotalPreorder | frontend/src/components/organisms/DataTable.tsx:64-74 | the row comparator is a total preorder, so sorting with it is well defined |
| DataTable.Sorted | frontend/src/components/organisms/DataTable.tsx:61-75 | the sorted rows are a permutation of the filtered rows, unchanged when there is no sort |
| DataTable.SortedStable | frontend/src/components/organisms/DataTable.tsx:64-74 | rows with the same value in the sort column keep their relative order |
| DataTable.SortedPlacesMissing | frontend/src/components/organisms/DataTable.tsx:64-74 | with a sort, the rows come out ordered by the column, with missing values first when ascending and last when descending |
| DataTable.ToggleSort | frontend/src/components/organisms/DataTable.tsx:80-86 | a header click returns to page 1 and sorts on that column: ascending on a new column, and in the opposite direction on the current one |
| DataTable.ToggleSortTwice | frontend/src/components/organisms/DataTable.tsx:80-86 | two clicks on the current column restore its direction; two clicks on a new column give descending order |
| DataTable.JsSlice | frontend/src/components/organisms/DataTable.tsx:78 | a slice with a non-negative start is the run of elements from the start, cut at the clamped end |
| DataTable.PageSlice | frontend/src/components/organisms/DataTable.tsx:77-78 | whatever the page number, at most a page of rows is shown; from page 1 on they are consecutive rows starting at the page's first index |
| DataTable.PageSliceMatchesPagination | frontend/src/components/organisms/DataTable.tsx:77-78 | on an existing page, the rows shown are exactly the items the pagination control announces |
| DataTable.SearchKeys | frontend/src/components/organisms/DataTable.tsx:50 | the searchable keys when they are given, and otherwise the keys of all columns |
| DataTable.Visible | frontend/src/components/organisms/DataTable.tsx:48-78 | never more than a page of rows is shown; with a blank query, no sort, page 1 and at most a page of rows, every row is shown in order |
| DataTable.VisibleRows | frontend/src/components/organisms/DataTable.tsx:48-78 | every visible row is an input row, and while searching it matches on one of the search keys; without searchable keys, that means the lower-cased text of some column contains the lower-cased query; there are never more than a page of rows |
| Navigation.RoleHome | frontend/src/components/pages/LoginPage.tsx:37-43 | an ADMIN lands on Admin, and anyone else lands on Home |
| Navigation.RequireAuth | frontend/src/app/RoutesList.tsx:21-38 | the guard shows a placeholder while loading, sends a visitor who is not signed in to Login, and never redirects to Admin |
| Navigation.RequireAuthAdmits | frontend/src/app/RoutesList.tsx:21-38 | the page is shown exactly when loading is over, someone is signed in, and no role is required or the user has it; a wrong role is sent Home |
| Navigation.Required | frontend/src/app/RoutesList.tsx:40-86 | Login, Register and the catch-all have no guard; Home requires a signed-in user of any role, and Admin requires an ADMIN |
| Navigation.Visit | frontend/src/app/RoutesList.tsx:21-86 | a route's page is shown exactly when it has no guard, or loading is over and a signed-in user holds the required role, if any; every redirect goes to Login or Home |
| Navigation.LandingAdmitted | frontend/src/app/RoutesList.tsx:57-76 | each role's landing page admits that role; a resident who asks for Admin is sent Home; a visitor who is not signed in is sent to Login from either page |
| Navigation.OpenRoutes | frontend/src/app/RoutesList.tsx:40-86 | Login, Register and the catch-all are shown to everyone; a guarded route is never shown while loading or to a visitor who is not signed in |
| RegisterPage.ValidatePasses | frontend/src/components/pages/Register.tsx:29-35 | the form passes exactly when no check fails |
| RegisterPage.ValidateFirstFailure | frontend/src/components/pages/Register.tsx:29-35 | a failing form reports the message of its first failing check |
| RegisterPage.Checks | frontend/src/components/pages/Register.tsx:29-35 | the page runs five checks, in the order of its guard clauses |
| RegisterPage.Validate | frontend/src/components/pages/Register.tsx:29-35 | a form passes exactly when the name and e-mail are not blank, the password has at least 6 UTF-16 code units and equals its confirmation, and a plate is given for any vehicle; a failure reports one of the five page messages |
| RegisterPage.EmojiPasswordPasses | frontend/src/components/pages/Register.tsx:31 | three emoji make a password of length 6 as JavaScript counts it, so the form passes |
| RegisterPage.VehicleOf | frontend/src/components/pages/Register.tsx:37-40 | no vehicle is sent for NONE; otherwise the vehicle is the lower-cased type and the trimmed plate |
| RegisterPage.VehicleKinds | frontend/src/components/pages/Register.tsx:37-40 | the kinds sent are "car", "motorcycle" and "bicycle" |
| RegisterPage.Submit | frontend/src/components/pages/Register.tsx:25-49 | a submission fails exactly when validation fails, with its message; otherwise it sends the trimmed name and e-mail, the password as typed and the vehicle |
| RegisterPage.SubmittedFormRegisters | frontend/src/components/pages/Register.tsx:44-49 | every payload the page sends passes the backend's name and password checks, so sign-up succeeds unless the e-mail is in use |
| RegisterPage.BackendAcceptsValid | frontend/_mocks_/auth.ts:37-39 | with a non-blank name and a password of at least 6 UTF-16 code units, the backend accepts any e-mail not in use |
| RegisterPage.AfterRegister | frontend/src/components/pages/Register.tsx:50-51 | after a sign-up the page goes to Admin exactly when the returned role is ADMIN, and to Home otherwise, including when no role is returned |
| RegisterPage.FailureText | frontend/src/components/pages/Register.tsx:53 | the page shows the error's own message, or "Registration failed" when it has none |
| ResidentForm.Start | frontend/src/components/organisms/ResidentForm.tsx:25-30 | each given initial value is kept; a missing name, e-mail or plate starts as "" and a missing vehicle type as "car"; without initial values the form is empty with vehicle type "car" and plate "" |
| ResidentForm.ErrorMap | frontend/src/components/organisms/ResidentForm.tsx:38-42 | the map has an entry for each failing field and for nothing else, each carrying that field's message |
| ResidentForm.Errors | frontend/src/components/organisms/ResidentForm.tsx:38-42 | the map has an entry for a blank name, for a blank e-mail, and for a missing or blank plate unless the type is "none", with the messages "Name is required", "Email is required" and "Plate required" |
| ResidentForm.Submit | frontend/src/components/organisms/ResidentForm.tsx:36-46 | the form is handed on unchanged exactly when the error map is empty; otherwise the errors are reported |
| ResidentForm.AllFailuresReported | frontend/src/components/organisms/ResidentForm.tsx:38-44 | a blank name and a blank e-mail are both reported, not only the first |
| ResidentForm.SubmitIffValid | frontend/src/components/organisms/ResidentForm.tsx:36-46 | a form is submitted exactly when the name and e-mail are filled in and a plate is given unless the type is "none" |
| ResidentForm.EmptyStartRejected | frontend/src/components/organisms/ResidentForm.tsx:25-46 | the empty starting form is rejected with all three errors |
| LoginPage.Submit | frontend/src/components/pages/LoginPage.tsx:17-32 | a blank e-mail gives "Email is required", then a blank password gives "Password is required"; otherwise the credentials are sent exactly as typed |
| LoginPage.Redirect | frontend/src/components/pages/LoginPage.tsx:34-44 | there is no navigation without a user; an ADMIN goes to Admin and anyone else goes to Home |
| LoginPage.SignUpThenSignIn | frontend/src/components/pages/LoginPage.tsx:17-26 | once the sign-up page's payload is registered, the same e-mail and password pass this page whenever the password is not blank and are refused with "Password is required" when it is; the backend's login then returns the new resident under the trimmed name |
| LoginPage.BlankPasswordExample | frontend/src/components/pages/LoginPage.tsx:22 | six spaces pass the sign-up page's checks, but this page refuses them as a missing password |
| Text.Trim | frontend/_mocks_/auth.ts:8 | the result is the input with surrounding white space removed: it neither starts nor ends with white space |
| Text.TrimIdempotent | frontend/_mocks_/auth.ts:8 | trimming twice is trimming once |
| Text.ToLower | frontend/_mocks_/auth.ts:8 | lower-casing keeps the length, maps each character and leaves no capital letter |
| Text.TrimToLower | frontend/_mocks_/auth.ts:8 | lower-casing commutes with trimming |
| Text.TrimPadded | frontend/_mocks_/auth.ts:8 | trimming ignores white space added at either end |
| Text.Utf16Length | frontend/src/components/pages/Register.tsx:31 | the UTF-16 length lies between the number of characters and twice that |
| Text.Utf16LengthBmp | frontend/src/components/pages/Register.tsx:31 | on text with no character beyond U+FFFF, the UTF-16 length is the number of characters |
| Text.Utf16LengthExamples | frontend/src/components/pages/Register.tsx:31 | "abcdef" has UTF-16 length 6, and three emoji are 3 characters but 6 UTF-16 units |
| Text.Includes | frontend/_mocks_/residents.ts:20 | the needle is included exactly when it occurs at some offset of the text |
| Text.BlankIffAllSpace | frontend/src/components/pages/Register.tsx:29 | a string is blank after trimming exactly when it is all white space |
| Seqs.Dedup | frontend/_mocks_/raffles.ts:97 | the result keeps every element once, and nothing else, in the order of each element's first occurrence in the input |
| Seqs.DedupOfNoDup | frontend/_mocks_/raffles.ts:97 | a sequence without duplicates is its own deduplication |
| StrOrder.Cmp | frontend/_mocks_/raffles.ts:207 | the comparison used in place of `localeCompare` answers -1, 0 or 1, and 0 exactly on equal strings |
| StrOrder.CmpTransitive | frontend/_mocks_/raffles.ts:207 | the string order used in place of `localeCompare` is transitive |
| Sorting.Sort | frontend/src/components/organisms/DataTable.tsx:64 | `Array.prototype.sort` returns a permutation of its input: the same elements, each as many times |
| Sorting.SortStable | frontend/src/components/organisms/DataTable.tsx:64 | the sort is stable: any elements the comparator cannot tell apart come out in the order they went in |
| Sorting.SortIsSorted | frontend/src/components/organisms/DataTable.tsx:64 | sorting with a total-preorder comparator yields a sequence ordered by it |
| Sorting.SortSorted | frontend/_mocks_/raffles.ts:207 | a sequence already in order comes back unchanged |
| Seqs.Filter | frontend/_mocks_/raffles.ts:96 | `filter` keeps exactly the elements that satisfy the predicate, each as many times as in the input, and nothing else |
| Seqs.FindIndex | frontend/_mocks_/raffles.ts:90 | `find` answers the first element that satisfies the predicate, and nothing exactly when no element does |
| Seqs.Reverse | frontend/_mocks_/raffles.ts:64 | `slice().reverse()` lists the same elements from last to first |

## Left out

- Persistence: `localStorage` loading and saving in db.ts, and `getDB`'s caching, are I/O. Each operation receives the state and returns the next one.
- `delay` and `console.log` have no effect on any state or result.
- `crypto.randomUUID`, the `id()` helper and `new Date()` are outside the model. The new raffle id, the new user id and the current time are parameters.
- Raffles.Run: one timestamp `now` is used for `ranAt` and for every ledger row of the run, where the source reads the clock once per row.
- Raffles.Run: the draw stream must hold at least as many draws as there are registrations plus spots. Shuffling uses at most that many; an endless `Math.random()` has no finite counterpart.
- Utils.Shuffle: uniformity (every permutation equally likely) is a statement about a probability distribution, which is outside the model. What is proved is that every draw gives a permutation.
- Raffles.HistoryByResident: `localeCompare` is replaced by code-point order (`StrOrder.Cmp`). On labels shaped like those `quarterCycle` produces, both orders are decided by the year digits and then the quarter digit; on arbitrary strings they can differ.
- DataTable.CompareValues: `localeCompare` with `numeric: true` is replaced by code-point order. Digit runs are compared character by character, not as numbers, so "10" sorts before "9". Only the structure is kept: missing values first or last, ties only on equal strings, and reversal for descending order.
- Text.ToLower: only ASCII letters are lower-cased; Unicode case mapping is not modelled.
- Auth: the login token (`btoa` of the id and the clock), `me`, logout and the password-reset stubs are left out. Login returns the role, id and name that come with the token.
- Spots.Update: the patch's status is one of the four spot statuses, while the source accepts any string. A patch can set `residentId` to `undefined` (`Some(None)`), but the stored `Spot` does not distinguish a key set to `undefined` from a missing key.
- Pagination.PageCount: a page size of 0 is excluded; the source divides by it, so its page count is `Infinity`, or `NaN` when there are no items.
- Navigation: the route path strings are left out. Routes.ts is not part of this model, and only which route is chosen is modelled. The catch-all's NotFound page content is left out as well.
- DataTable: the toolbar's reset button, the search box wiring and all rendering are left out; the model covers the filter, sort, toggle and slice.
- RegisterPage.Submit: the payload is handed to `Auth.Register` as a vehicle record map; the HTTP transport in between is left out.
- The loading flags, the `aria-describedby` wiring of the single text and select fields, AdminPage, RafflePanel, the MSW request handlers and the React hooks are outside the modelled core.

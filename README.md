# HPE advisory checker — a Dafny model

`app.py` is a small Streamlit page. It logs into a vendor site, scrapes the
advisory notices from its HTML, and keeps those whose details name one of the
user's servers. It compares them with the advisories saved by the previous run,
reports the ones that are new, and saves the current list over the old one.

The project models that pipeline and proves what each step computes:

- `text.dfy` (module `Text`): the string operations the script leans on.
  These are lower-casing (`Lower`, app.py:83), substring search (`Contains`,
  the `in` of app.py:83), `str.strip()` (`Strip`, app.py:130),
  `str.split(',')` (`Split`, app.py:130) and `','.join` (`Join`, the inverse of
  `Split` used to state its round trips).
- `advisories.dfy` (module `Advisories`): the advisory record and the HTML
  block reduced to its three optional elements. It also holds the pure
  specification of each stage:
  - `Fetched` (app.py:45-72): the records built from a page;
  - `Matches` (app.py:83): whether one server name selects an advisory;
  - `Filtered` (app.py:78-85): the filter output, with repeats;
  - `NewEntries` (app.py:99-103): which filtered entries are new against the
    previous snapshot.
  
  Their properties are proved as lemmas.
- `checker.dfy` (module `Checker`): the snapshot file as the class
  `AdvisoryStore`, holding an existence flag and the saved list. The checker is
  the class `HpeAdvisoryChecker`. Its loops (building the records, the nested
  filter loop, the new-entry count) are methods proved against the functions
  above. `CheckNewAdvisories` states the whole new state of the store.
- `app.dfy` (module `App`): the server-list comprehension (`ParseServers`,
  app.py:130) and one press of the "Check Advisories" button (app.py:125-138).

Inputs that come from outside become parameters:
- The HTTP status of the login request is an `int`.
- The advisory page is a `Page`: a status code plus the `div.advisory` blocks,
  each with the optional text of its `h3` and `p` and the `href` of its `a`.
- The snapshot file is an `AdvisoryStore` object that outlives a checker, so
  two presses of the button share it.

`CheckNewAdvisories` returns the reported entries and their count. In the
source these are only written to the screen.

## Model

| member | source | states |
|---|---|---|
| Text.Contains | app.py:83 | `needle in hay` is true exactly when the needle occurs at some index of the hay; an empty needle always occurs |
| Text.Strip | app.py:130 | the result is the part of the text between a whitespace-only prefix and a whitespace-only suffix, and neither end of it is whitespace |
| Text.SplitPiecesFree | app.py:130 | no piece produced by splitting on `,` contains a comma |
| Text.JoinSplit | app.py:130 | joining the split pieces with `,` gives back the original text, so nothing is lost or reordered |
| Text.SplitAppend | app.py:130 | splitting `a + "," + b` gives the pieces of `a` followed by the pieces of `b` |
| Text.SplitJoin | app.py:130 | splitting a comma-join of comma-free pieces returns exactly those pieces |
| Advisories.ToAdvisory | app.py:64-66 | a present `h3`, `p` or `a` gives its text or `href`; a missing one gives "No Title", "No Details" or "No Link" |
| Advisories.FullBlockRoundTrip | app.py:63-72 | a block with all three elements yields exactly those three strings |
| Advisories.PlaceholderMeansMissing | app.py:64-66 | a field reads as its placeholder only if the element is missing or its text is the placeholder itself |
| Advisories.MatchesIgnoresCase | app.py:83 | lower-casing the server name, or the advisory's details, first does not change whether the name selects the advisory |
| Advisories.EmptyServerMatchesAll | app.py:83 | an empty server name selects every advisory |
| Advisories.CopiesAreRepeats | app.py:82-84 | the inner loop appends the current advisory, and nothing else, once for each server name that selects it |
| Advisories.FilteredAppend | app.py:81-85 | filtering a concatenation is the concatenation of the filtered parts, so the output follows input order |
| Advisories.FilteredSingle | app.py:81-85 | one advisory alone is kept exactly `MatchCount` times |
| Advisories.FilteredNoServers | app.py:82-85 | with an empty server list the filter output is empty |
| Advisories.FilteredMultiplicity | app.py:81-85 | each advisory occurs in the output (its occurrences in the input) × (the number of server names it matches) times |
| Advisories.FilteredMember | app.py:81-84 | an advisory is in the output exactly when it is an input advisory that some server name selects |
| Advisories.NewEntriesCountsPositions | app.py:100-103 | the new count equals the number of positions of the filtered list whose entry is not in the old snapshot |
| Advisories.NewEntriesMultiplicity | app.py:100-103 | an entry absent from the old snapshot is reported as often as it is filtered; a present one never (duplicates are each counted) |
| Advisories.NewEntriesMember | app.py:101-103 | an advisory is reported exactly when it is filtered and not in the old snapshot |
| Advisories.NewEntriesNoSnapshot | app.py:93-103 | against an empty (missing) snapshot every filtered entry is new, so the count is the filtered length |
| Advisories.NewEntriesSameList | app.py:100-113 | a rerun whose filtered list equals the saved snapshot reports nothing |
| Advisories.FailedFetchIsEmpty | app.py:45-47 | a non-200 advisory page gives an empty filtered list and no new entries |
| Advisories.ServerKept | app.py:81-85 | the record `{A, "affects server1", x}` is kept once for the server list `["server1"]` |
| Advisories.ServerDropped | app.py:81-85 | the same record is dropped for the server list `["server2"]` |
| Checker.AdvisoryStore.Load | app.py:93-97 | loading yields the saved list when the file exists and `[]` when it does not |
| Checker.AdvisoryStore.Save | app.py:112-113 | saving leaves the file existing and holding exactly the given list |
| Checker.HpeAdvisoryChecker.constructor | app.py:8-16 | the checker keeps the credentials, the server list and the snapshot file it is given |
| Checker.HpeAdvisoryChecker.Login | app.py:18-34 | login succeeds exactly when the login request answers 200 |
| Checker.HpeAdvisoryChecker.FetchAdvisories | app.py:36-76 | a non-200 page gives `[]`; otherwise one record per block, in page order, built by `ToAdvisory` |
| Checker.HpeAdvisoryChecker.FilterAdvisories | app.py:78-85 | the nested loop builds `Filtered(advisories, servers)`, with the multiplicity of each advisory as above |
| Checker.HpeAdvisoryChecker.FindNew | app.py:99-106 | the loop reports `NewEntries(filtered, previous)` and its count is the number of new positions |
| Checker.HpeAdvisoryChecker.CheckNewAdvisories | app.py:87-113 | it reports the new entries against the old snapshot, or `[]` without a file; afterwards the file exists and holds exactly the filtered list (replaced, not merged); a non-200 page gives count 0 and an empty snapshot |
| App.ParseServers | app.py:130 | every parsed name is non-empty, has no comma and has no whitespace at either end |
| App.ParseServersAppend | app.py:130 | the names before a comma come before the names after it, each side parsed on its own (input order) |
| App.ParseServersSingle | app.py:130 | comma-free text gives its stripped self, or nothing when that is empty |
| App.ParseServersJoin | app.py:130 | parsing the comma-join of server names gives back exactly those names |
| App.CheckAdvisoriesClicked | app.py:125-138 | an empty field changes nothing; a failed login changes nothing; otherwise the outcome and the new snapshot are those of one check with the parsed server list |
| App.SnapshotIsReplaced | app.py:87-113 | starting from a new store with no snapshot file, the first run reports one new advisory (count 1) and stores it; a second run on an empty page has count 0 and leaves an empty snapshot, so the stored advisory is gone |
| App.RerunReportsNothing | app.py:93-113 | against a snapshot file that already holds exactly what the page yields, a run has count 0 and leaves the file holding that same list |

## Left out

- Streamlit output (`st.write`, `st.code`, `st.title`) and input widgets (app.py:117-124). These are UI only. The reported entries and their count are returned instead of printed.
- The `requests.Session` calls, the URLs and `response.url` (app.py:12-15, 26, 38, 42). These are network I/O. Their results are the status and `Page` parameters.
- BeautifulSoup parsing and selection (app.py:54-58). This is a foreign library. Its result is the `blocks` sequence of a `Page`.
- An `a` element without an `href` raises `KeyError` in app.py:66. The model takes `Block.link` to be the `href` of the first `a` that is present, so it does not model that crash.
- JSON encoding and the file system (app.py:93-95, 112-113). These become the `AdvisoryStore` fields. A file written by `json.dump` is read back as the same list.
- A snapshot file that exists but cannot be parsed. In app.py:94-95, `json.load` then raises, so the run stops. The model has no such state; the code does not treat an unreadable file as empty, the run stops.
- Text.Lower: lower-cases only the ASCII letters A-Z. Python's `str.lower()` also maps other Unicode letters, so `Advisories.Matches` differs from the source for non-ASCII letters.
- Running two checks at once. The file is read, then overwritten, with no lock; this concurrency is out of scope.

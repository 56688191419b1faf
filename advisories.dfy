/** Advisory records and the pure specification of the checker's pipeline:
    how a fetched page becomes advisories, which advisories a server list
    keeps (and how often), and which kept advisories count as new against
    the previous snapshot. */
module Advisories {
  import opened Text

  datatype Option<T> = None | Some(value: T)

  /** One advisory as the checker stores it: the three string fields of the
      dictionary it builds. Equality is field by field, as for the
      dictionaries compared by `not in`. */
  datatype Advisory = Advisory(title: string, details: string, link: string)

  /** One `div.advisory` block of the page, reduced to what the checker
      reads from it: the text of its first `h3`, the text of its first `p`
      and the `href` of its first `a`, each absent when the element is. */
  datatype Block = Block(title: Option<string>, details: Option<string>, link: Option<string>)

  /** The advisory page as the session returns it: an HTTP status and the
      advisory blocks found in its HTML. */
  datatype Page = Page(status: int, blocks: seq<Block>)

  const OK_STATUS: int := 200
  const NO_TITLE: string := "No Title"
  const NO_DETAILS: string := "No Details"
  const NO_LINK: string := "No Link"

  function OrElse(field: Option<string>, placeholder: string): string {
    match field
    case Some(text) => text
    case None => placeholder
  }

  /** The record built for one block: a present element gives its text, an
      absent one the placeholder. */
  function ToAdvisory(b: Block): (a: Advisory)
    ensures b.title.Some? ==> a.title == b.title.value
    ensures b.title.None? ==> a.title == NO_TITLE
    ensures b.details.Some? ==> a.details == b.details.value
    ensures b.details.None? ==> a.details == NO_DETAILS
    ensures b.link.Some? ==> a.link == b.link.value
    ensures b.link.None? ==> a.link == NO_LINK
  {
    Advisory(OrElse(b.title, NO_TITLE), OrElse(b.details, NO_DETAILS), OrElse(b.link, NO_LINK))
  }

  /** The block in which every element is present. */
  function FullBlock(a: Advisory): Block {
    Block(Some(a.title), Some(a.details), Some(a.link))
  }

  /** A block with all three elements present loses nothing: every advisory
      is the image of exactly its full block. */
  lemma FullBlockRoundTrip(a: Advisory)
    ensures ToAdvisory(FullBlock(a)) == a
  {
  }

  /** A placeholder can only appear where the element is missing or where
      the page itself carries the placeholder's text. */
  lemma PlaceholderMeansMissing(b: Block)
    ensures ToAdvisory(b).link == NO_LINK <==> b.link.None? || b.link == Some(NO_LINK)
    ensures ToAdvisory(b).title == NO_TITLE <==> b.title.None? || b.title == Some(NO_TITLE)
    ensures ToAdvisory(b).details == NO_DETAILS <==> b.details.None? || b.details == Some(NO_DETAILS)
  {
  }

  /** Every block of the page in page order, or nothing when the status
      is not 200. */
  function Fetched(page: Page): seq<Advisory> {
    if page.status != OK_STATUS then []
    else seq(|page.blocks|, k requires 0 <= k < |page.blocks| => ToAdvisory(page.blocks[k]))
  }

  /** A server name selects an advisory when, both lower-cased, the name is
      a substring of the details. */
  predicate Matches(server: string, a: Advisory) {
    Contains(Lower(a.details), Lower(server))
  }

  /** Matching ignores case on both sides: lower-casing the server name or
      the advisory's details first changes nothing. */
  lemma MatchesIgnoresCase(server: string, a: Advisory)
    ensures Matches(Lower(server), a) == Matches(server, a)
    ensures Matches(server, a.(details := Lower(a.details))) == Matches(server, a)
  {
    LowerIdempotent(server);
    LowerIdempotent(a.details);
  }

  /** An empty server name selects every advisory. */
  lemma EmptyServerMatchesAll(a: Advisory)
    ensures Matches([], a)
  {
    assert OccursAt(Lower(a.details), Lower([]), 0);
  }

  /** How many of the server names select `a` (with repeats). */
  function MatchCount(a: Advisory, servers: seq<string>): nat {
    if servers == [] then 0
    else MatchCount(a, servers[..|servers| - 1]) + (if Matches(servers[|servers| - 1], a) then 1 else 0)
  }

  lemma {:induction false} MatchCountZero(a: Advisory, servers: seq<string>)
    ensures MatchCount(a, servers) == 0 <==> forall s :: s in servers ==> !Matches(s, a)
  {
    if servers != [] {
      var init := servers[..|servers| - 1];
      MatchCountZero(a, init);
      assert servers == init + [servers[|servers| - 1]];
    }
  }

  /** What the inner loop over the server names appends for one advisory:
      one copy of it per server name that selects it. */
  function Copies(a: Advisory, servers: seq<string>): seq<Advisory> {
    if servers == [] then []
    else Copies(a, servers[..|servers| - 1]) + (if Matches(servers[|servers| - 1], a) then [a] else [])
  }

  /** The copies are exactly `MatchCount` repetitions of the advisory. */
  lemma {:induction false} CopiesAreRepeats(a: Advisory, servers: seq<string>)
    ensures |Copies(a, servers)| == MatchCount(a, servers)
    ensures forall k :: 0 <= k < |Copies(a, servers)| ==> Copies(a, servers)[k] == a
  {
    if servers != [] {
      CopiesAreRepeats(a, servers[..|servers| - 1]);
    }
  }

  /** The list the filter builds: for each advisory in input order, its
      copies. */
  function Filtered(advisories: seq<Advisory>, servers: seq<string>): seq<Advisory> {
    if advisories == [] then []
    else
      Filtered(advisories[..|advisories| - 1], servers)
        + Copies(advisories[|advisories| - 1], servers)
  }

  /** Filtering a concatenation filters each part, keeping input order. */
  lemma {:induction false} FilteredAppend(xs: seq<Advisory>, ys: seq<Advisory>, servers: seq<string>)
    ensures Filtered(xs + ys, servers) == Filtered(xs, servers) + Filtered(ys, servers)
  {
    if ys != [] {
      var init := ys[..|ys| - 1];
      assert (xs + ys)[..|xs + ys| - 1] == xs + init;
      assert (xs + ys)[|xs + ys| - 1] == ys[|ys| - 1];
      FilteredAppend(xs, init, servers);
    } else {
      assert xs + ys == xs;
    }
  }

  /** One advisory on its own is kept once per server name that selects it. */
  lemma FilteredSingle(a: Advisory, servers: seq<string>)
    ensures Filtered([a], servers) == Copies(a, servers)
    ensures |Filtered([a], servers)| == MatchCount(a, servers)
  {
    assert [a][..0] == [];
    CopiesAreRepeats(a, servers);
  }

  /** With no server names the filter keeps nothing. */
  lemma {:induction false} FilteredNoServers(advisories: seq<Advisory>)
    ensures Filtered(advisories, []) == []
  {
    if advisories != [] {
      FilteredNoServers(advisories[..|advisories| - 1]);
    }
  }

  lemma {:induction false} CopiesMultiset(a: Advisory, servers: seq<string>, x: Advisory)
    ensures multiset(Copies(a, servers))[x] == if x == a then MatchCount(a, servers) else 0
  {
    if servers != [] {
      CopiesMultiset(a, servers[..|servers| - 1], x);
    }
  }

  /** Every advisory occurs in the filtered list as often as it occurs in
      the input times the number of server names that select it. */
  lemma {:induction false} FilteredMultiplicity(advisories: seq<Advisory>, servers: seq<string>, x: Advisory)
    ensures multiset(Filtered(advisories, servers))[x] == multiset(advisories)[x] * MatchCount(x, servers)
  {
    if advisories != [] {
      var init := advisories[..|advisories| - 1];
      var last := advisories[|advisories| - 1];
      assert advisories == init + [last];
      FilteredMultiplicity(init, servers, x);
      CopiesMultiset(last, servers, x);
      assert Filtered(advisories, servers) == Filtered(init, servers) + Copies(last, servers);
      assert multiset(Filtered(advisories, servers))[x]
          == multiset(Filtered(init, servers))[x] + multiset(Copies(last, servers))[x];
      var m := multiset(init)[x];
      var c := MatchCount(x, servers);
      if x == last {
        assert multiset(advisories)[x] == m + 1;
        MulSucc(m, c);
      } else {
        assert multiset(advisories)[x] == m;
      }
    }
  }

  /** An advisory is in the filtered list exactly when it is an input
      advisory that some server name selects. */
  lemma FilteredMember(advisories: seq<Advisory>, servers: seq<string>, x: Advisory)
    ensures x in Filtered(advisories, servers) <==>
            x in advisories && exists s :: s in servers && Matches(s, x)
  {
    FilteredMultiplicity(advisories, servers, x);
    MatchCountZero(x, servers);
    MulPositive(multiset(advisories)[x], MatchCount(x, servers));
  }

  lemma MulSucc(m: nat, c: nat)
    ensures (m + 1) * c == m * c + c
  {
  }

  lemma MulPositive(m: nat, c: nat)
    ensures m * c > 0 <==> m > 0 && c > 0
  {
    if m > 0 && c > 0 {
      assert m * c >= c;
    }
  }

  /** The advisories of `filtered` that are not in `previous`, in order and
      with repeats: each position is judged against `previous` alone, never
      against entries reported earlier in the same run. */
  function NewEntries(filtered: seq<Advisory>, previous: seq<Advisory>): seq<Advisory> {
    if filtered == [] then []
    else
      NewEntries(filtered[..|filtered| - 1], previous)
        + (if filtered[|filtered| - 1] in previous then [] else [filtered[|filtered| - 1]])
  }

  /** The positions of `filtered` whose advisory is not in `previous`. */
  function NewPositions(filtered: seq<Advisory>, previous: seq<Advisory>): set<nat> {
    set k: nat | k < |filtered| && filtered[k] !in previous
  }

  /** One new advisory is reported per position whose entry is not in the
      previous snapshot. */
  lemma {:induction false} NewEntriesCountsPositions(filtered: seq<Advisory>, previous: seq<Advisory>)
    ensures |NewEntries(filtered, previous)| == |NewPositions(filtered, previous)|
  {
    if filtered != [] {
      var n := |filtered| - 1;
      var init := filtered[..n];
      NewEntriesCountsPositions(init, previous);
      if filtered[n] in previous {
        assert NewPositions(filtered, previous) == NewPositions(init, previous);
      } else {
        assert NewPositions(filtered, previous) == NewPositions(init, previous) + {n};
        assert n !in NewPositions(init, previous);
      }
    } else {
      assert NewPositions(filtered, previous) == {};
    }
  }

  /** Each advisory is reported as often as it occurs in `filtered` when it is
      absent from `previous`, and never when it is present. */
  lemma {:induction false} NewEntriesMultiplicity(filtered: seq<Advisory>, previous: seq<Advisory>, x: Advisory)
    ensures multiset(NewEntries(filtered, previous))[x] == if x in previous then 0 else multiset(filtered)[x]
  {
    if filtered != [] {
      var n := |filtered| - 1;
      assert filtered == filtered[..n] + [filtered[n]];
      NewEntriesMultiplicity(filtered[..n], previous, x);
    }
  }

  /** An advisory is reported exactly when it is filtered and was not in the
      previous snapshot. */
  lemma NewEntriesMember(filtered: seq<Advisory>, previous: seq<Advisory>, x: Advisory)
    ensures x in NewEntries(filtered, previous) <==> x in filtered && x !in previous
  {
    NewEntriesMultiplicity(filtered, previous, x);
  }

  /** Against an empty snapshot everything filtered is new. */
  lemma {:induction false} NewEntriesNoSnapshot(filtered: seq<Advisory>)
    ensures NewEntries(filtered, []) == filtered
  {
    if filtered != [] {
      NewEntriesNoSnapshot(filtered[..|filtered| - 1]);
      assert filtered == filtered[..|filtered| - 1] + [filtered[|filtered| - 1]];
    }
  }

  /** Against a snapshot holding the same list nothing is new. */
  lemma NewEntriesSameList(filtered: seq<Advisory>)
    ensures NewEntries(filtered, filtered) == []
  {
    if NewEntries(filtered, filtered) != [] {
      NewEntriesMember(filtered, filtered, NewEntries(filtered, filtered)[0]);
    }
  }

  /** A page with a status other than 200 gives no advisories, so nothing
      is kept and nothing is new. */
  lemma FailedFetchIsEmpty(page: Page, servers: seq<string>, previous: seq<Advisory>)
    requires page.status != OK_STATUS
    ensures Filtered(Fetched(page), servers) == []
    ensures NewEntries(Filtered(Fetched(page), servers), previous) == []
  {
  }

  /** Text without upper-case letters is its own lower-case form. */
  lemma LowerOfLowerCase(s: string)
    requires forall k :: 0 <= k < |s| ==> !IsUpper(s[k])
    ensures Lower(s) == s
  {
  }

  /** A record whose details name `server1` is kept for `["server1"]`. */
  lemma ServerKept()
    ensures var a := Advisory("A", "affects server1", "x");
            Filtered([a], ["server1"]) == [a]
  {
    var a := Advisory("A", "affects server1", "x");
    LowerOfLowerCase("server1");
    LowerOfLowerCase(a.details);
    assert a.details[8..15] == "server1";
    assert OccursAt(Lower(a.details), Lower("server1"), 8);
    assert ["server1"][..0] == [];
    FilteredSingle(a, ["server1"]);
  }

  /** The same record is dropped for `["server2"]`. */
  lemma ServerDropped()
    ensures var a := Advisory("A", "affects server1", "x");
            Filtered([a], ["server2"]) == []
  {
    var a := Advisory("A", "affects server1", "x");
    LowerOfLowerCase("server2");
    LowerOfLowerCase(a.details);
    assert '2' !in a.details;
    assert '2' in "server2";
    forall k: nat ensures !OccursAt(a.details, "server2", k) {
      if OccursAt(a.details, "server2", k) {
        OccursAtChars(a.details, "server2", k, '2');
      }
    }
    assert ["server2"][..0] == [];
    FilteredSingle(a, ["server2"]);
  }
}

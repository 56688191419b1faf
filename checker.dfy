/** The checker object and the snapshot file it reads and rewrites. */
module Checker {
  import opened Text
  import opened Advisories

  /** The local snapshot file: whether it exists and, if so, the advisory
      list last written to it. It outlives any one checker. */
  class AdvisoryStore {
    var fileExists: bool
    var saved: seq<Advisory>

    /** No snapshot file yet. */
    constructor Missing()
      ensures !fileExists && saved == []
    {
      fileExists := false;
      saved := [];
    }

    /** A snapshot file holding `contents`. */
    constructor Holding(contents: seq<Advisory>)
      ensures fileExists && saved == contents
    {
      fileExists := true;
      saved := contents;
    }

    /** What a load yields: the stored list, or nothing without a file. */
    function Contents(): seq<Advisory>
      reads this
    {
      if fileExists then saved else []
    }

    /** Reads the previous snapshot; a missing file reads as empty. */
    method Load() returns (previous: seq<Advisory>)
      ensures fileExists ==> previous == saved
      ensures !fileExists ==> previous == []
    {
      if fileExists {
        previous := saved;
      } else {
        previous := [];
      }
    }

    /** Overwrites the snapshot file with `advisories`, creating it if need
        be; nothing of the earlier contents is kept. */
    method Save(advisories: seq<Advisory>)
      modifies this
      ensures fileExists && saved == advisories
    {
      fileExists := true;
      saved := advisories;
    }
  }

  class HpeAdvisoryChecker {
    const username: string
    const password: string
    const servers: seq<string>
    const store: AdvisoryStore

    constructor (username: string, password: string, servers: seq<string>, store: AdvisoryStore)
      ensures this.username == username && this.password == password
      ensures this.servers == servers && this.store == store
    {
      this.username := username;
      this.password := password;
      this.servers := servers;
      this.store := store;
    }

    /** The login succeeds exactly when the login request answers 200. */
    method Login(status: int) returns (ok: bool)
      ensures ok <==> status == OK_STATUS
    {
      ok := status == OK_STATUS;
    }

    /** Builds one record per advisory block, in page order, or nothing when
        the page did not answer 200. */
    method FetchAdvisories(page: Page) returns (advisories: seq<Advisory>)
      ensures page.status != OK_STATUS ==> advisories == []
      ensures page.status == OK_STATUS ==>
                |advisories| == |page.blocks| &&
                forall k :: 0 <= k < |page.blocks| ==> advisories[k] == ToAdvisory(page.blocks[k])
      ensures advisories == Fetched(page)
    {
      if page.status != OK_STATUS {
        return [];
      }
      advisories := [];
      for i := 0 to |page.blocks|
        invariant |advisories| == i
        invariant forall k :: 0 <= k < i ==> advisories[k] == ToAdvisory(page.blocks[k])
      {
        var block := page.blocks[i];
        var title := if block.title.Some? then block.title.value else NO_TITLE;
        var details := if block.details.Some? then block.details.value else NO_DETAILS;
        var link := if block.link.Some? then block.link.value else NO_LINK;
        advisories := advisories + [Advisory(title, details, link)];
      }
    }

    /** Appends each advisory once for every server name that selects it,
        advisory by advisory. */
    method FilterAdvisories(advisories: seq<Advisory>) returns (filtered: seq<Advisory>)
      ensures filtered == Filtered(advisories, servers)
      ensures forall x :: multiset(filtered)[x] == multiset(advisories)[x] * MatchCount(x, servers)
    {
      filtered := [];
      for i := 0 to |advisories|
        invariant filtered == Filtered(advisories[..i], servers)
      {
        var advisory := advisories[i];
        for j := 0 to |servers|
          invariant filtered == Filtered(advisories[..i], servers) + Copies(advisory, servers[..j])
        {
          if Contains(Lower(advisory.details), Lower(servers[j])) {
            filtered := filtered + [advisory];
          }
          assert servers[..j + 1][..j] == servers[..j];
        }
        assert servers[..|servers|] == servers;
        assert advisories[..i + 1][..i] == advisories[..i];
      }
      assert advisories[..|advisories|] == advisories;
      forall x ensures multiset(filtered)[x] == multiset(advisories)[x] * MatchCount(x, servers) {
        FilteredMultiplicity(advisories, servers, x);
      }
    }

    /** Goes through the filtered list and reports every entry that is not
        in the previous snapshot, counting each such position. */
    method FindNew(filtered: seq<Advisory>, previous: seq<Advisory>) returns (reported: seq<Advisory>, count: nat)
      ensures reported == NewEntries(filtered, previous)
      ensures count == |reported| == |NewPositions(filtered, previous)|
    {
      reported := [];
      count := 0;
      for i := 0 to |filtered|
        invariant reported == NewEntries(filtered[..i], previous)
        invariant count == |reported|
      {
        var advisory := filtered[i];
        if advisory !in previous {
          count := count + 1;
          reported := reported + [advisory];
        }
        assert filtered[..i + 1][..i] == filtered[..i];
      }
      assert filtered[..|filtered|] == filtered;
      NewEntriesCountsPositions(filtered, previous);
    }

    /** One check: fetch, filter, report what the previous snapshot lacks,
        then replace the snapshot by the filtered list. */
    method CheckNewAdvisories(page: Page) returns (reported: seq<Advisory>, count: nat)
      modifies store
      ensures var filtered := Filtered(Fetched(page), servers);
              && reported == NewEntries(filtered, old(store.Contents()))
              && count == |reported|
              && store.fileExists && store.saved == filtered
      ensures page.status != OK_STATUS ==> count == 0 && store.saved == []
    {
      if page.status != OK_STATUS {
        FailedFetchIsEmpty(page, servers, store.Contents());
      }
      var fetched := FetchAdvisories(page);
      var filtered := FilterAdvisories(fetched);
      var previous := store.Load();
      reported, count := FindNew(filtered, previous);
      store.Save(filtered);
    }
  }
}

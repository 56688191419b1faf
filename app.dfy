/** The page script: turning the comma-separated server text into names,
    and what one press of the check button does. */
module App {
  import opened Text
  import opened Advisories
  import opened Checker

  /** A server name as the parser produces it: not empty, no comma, and no
      whitespace at either end. */
  predicate IsServerName(s: string) {
    s != [] && ',' !in s && !IsSpace(s[0]) && !IsSpace(s[|s| - 1])
  }

  /** One piece stripped, or nothing when only whitespace was left. */
  function CleanPiece(piece: string): seq<string> {
    var t := Strip(piece);
    if t == [] then [] else [t]
  }

  /** Strips every piece and drops those that end up empty. */
  function CleanPieces(pieces: seq<string>): seq<string> {
    if pieces == [] then []
    else CleanPiece(pieces[0]) + CleanPieces(pieces[1..])
  }

  /** A comma-free piece cleans up into server names only. */
  lemma CleanPieceName(piece: string)
    requires ',' !in piece
    ensures forall s :: s in CleanPiece(piece) ==> IsServerName(s)
  {
    StripKeepsAbsent(piece, ',');
  }

  /** Comma-free pieces clean up into server names. */
  lemma {:induction false} CleanPiecesNames(pieces: seq<string>)
    requires forall p :: p in pieces ==> ',' !in p
    ensures forall s :: s in CleanPieces(pieces) ==> IsServerName(s)
  {
    if pieces != [] {
      var first, rest := pieces[0], pieces[1..];
      assert first in pieces;
      CleanPieceName(first);
      assert forall p :: p in rest ==> p in pieces;
      CleanPiecesNames(rest);
      var head, tail := CleanPiece(first), CleanPieces(rest);
      assert CleanPieces(pieces) == head + tail;
      assert forall s :: s in head + tail ==> s in head || s in tail;
    }
  }

  lemma CleanPiecesCons(piece: string, rest: seq<string>)
    ensures CleanPieces([piece] + rest) == CleanPiece(piece) + CleanPieces(rest)
  {
    assert ([piece] + rest)[0] == piece && ([piece] + rest)[1..] == rest;
  }

  lemma {:induction false} CleanPiecesAppend(xs: seq<string>, ys: seq<string>)
    ensures CleanPieces(xs + ys) == CleanPieces(xs) + CleanPieces(ys)
  {
    if xs == [] {
      assert xs + ys == ys;
    } else {
      var first, rest := xs[0], xs[1..];
      assert xs == [first] + rest;
      assert xs + ys == [first] + (rest + ys);
      CleanPiecesAppend(rest, ys);
      CleanPiecesCons(first, rest + ys);
      CleanPiecesCons(first, rest);
      ConcatAssoc(CleanPiece(first), CleanPieces(rest), CleanPieces(ys));
    }
  }

  /** Pieces that are already server names pass through unchanged. */
  lemma {:induction false} CleanPiecesKeepsNames(names: seq<string>)
    requires forall s :: s in names ==> IsServerName(s)
    ensures CleanPieces(names) == names
  {
    if names != [] {
      var first, rest := names[0], names[1..];
      assert IsServerName(first) by { assert first in names; }
      StripUnchanged(first);
      assert CleanPiece(first) == [first];
      assert forall s :: s in rest ==> IsServerName(s) by {
        forall s | s in rest ensures IsServerName(s) {
          assert s in names;
        }
      }
      CleanPiecesKeepsNames(rest);
      assert CleanPieces(names) == [first] + CleanPieces(rest);
      assert names == [first] + rest;
    }
  }

  /** The server list built from the text field: split on commas, strip
      each piece, keep the non-empty ones in order. */
  function ParseServers(text: string): (r: seq<string>)
    ensures forall s :: s in r ==> IsServerName(s)
  {
    SplitPiecesFree(text, ',');
    CleanPiecesNames(Split(text, ','));
    CleanPieces(Split(text, ','))
  }

  /** The names on either side of a comma are parsed separately and kept in
      input order. */
  lemma ParseServersAppend(a: string, b: string)
    ensures ParseServers(a + [','] + b) == ParseServers(a) + ParseServers(b)
  {
    SplitAppend(a, b, ',');
    CleanPiecesAppend(Split(a, ','), Split(b, ','));
  }

  /** Text without a comma gives its stripped self, or nothing when that is
      empty. */
  lemma ParseServersSingle(text: string)
    requires ',' !in text
    ensures ParseServers(text) == if Strip(text) == [] then [] else [Strip(text)]
  {
    SplitSingle(text, ',');
    assert [text][1..] == [];
    assert CleanPieces([]) == [];
  }

  /** Writing server names out comma-separated and parsing the text gives
      the same names back. */
  lemma ParseServersJoin(names: seq<string>)
    requires forall s :: s in names ==> IsServerName(s)
    ensures ParseServers(Join(names, ',')) == names
  {
    if names == [] {
      assert Join(names, ',') == [];
      assert Strip([]) == [];
    } else {
      assert forall p :: p in names ==> ',' !in p by {
        forall p | p in names ensures ',' !in p {
          assert IsServerName(p);
        }
      }
      SplitJoin(names, ',');
      CleanPiecesKeepsNames(names);
    }
  }

  /** What one button press leads to. */
  datatype RunOutcome =
    | MissingInput
    | LoginFailed(status: int)
    | Checked(reported: seq<Advisory>, count: nat)

  /** One press of the check button: refuse when a field is empty, else
      build a checker for the parsed server names, log in and, when that
      succeeds, run one check against the snapshot file. */
  method CheckAdvisoriesClicked(username: string, password: string, serversText: string,
                                store: AdvisoryStore, loginStatus: int, page: Page)
    returns (outcome: RunOutcome)
    modifies store
    ensures username == [] || password == [] || serversText == [] ==>
              outcome == MissingInput && unchanged(store)
    ensures username != [] && password != [] && serversText != [] && loginStatus != OK_STATUS ==>
              outcome == LoginFailed(loginStatus) && unchanged(store)
    ensures username != [] && password != [] && serversText != [] && loginStatus == OK_STATUS ==>
              var filtered := Filtered(Fetched(page), ParseServers(serversText));
              && outcome == Checked(NewEntries(filtered, old(store.Contents())), |NewEntries(filtered, old(store.Contents()))|)
              && store.fileExists && store.saved == filtered
  {
    if username == [] || password == [] || serversText == [] {
      return MissingInput;
    }
    var serverList := ParseServers(serversText);
    var checker := new HpeAdvisoryChecker(username, password, serverList, store);
    var ok := checker.Login(loginStatus);
    if !ok {
      return LoginFailed(loginStatus);
    }
    var reported, count := checker.CheckNewAdvisories(page);
    outcome := Checked(reported, count);
  }

  /** Two checks in a row, starting with no snapshot file: the first reports
      the one advisory and stores it; the second page lists nothing, so it
      reports nothing and the stored advisory is gone. */
  method SnapshotIsReplaced() returns (store: AdvisoryStore, firstCount: nat, secondCount: nat)
    ensures fresh(store)
    ensures firstCount == 1 && secondCount == 0
    ensures store.fileExists && store.saved == []
  {
    store := new AdvisoryStore.Missing();
    var a := Advisory("A", "affects server1", "x");
    var page := Page(OK_STATUS, [FullBlock(a)]);
    assert Fetched(page) == [a];
    ServerKept();
    var first := new HpeAdvisoryChecker("user", "secret", ["server1"], store);
    var reported;
    reported, firstCount := first.CheckNewAdvisories(page);
    NewEntriesNoSnapshot([a]);
    assert store.saved == [a];
    var second := new HpeAdvisoryChecker("user", "secret", ["server1"], store);
    reported, secondCount := second.CheckNewAdvisories(Page(OK_STATUS, []));
  }

  /** A check against a snapshot file that already holds exactly what the
      page yields reports nothing and leaves the file as it was. */
  method RerunReportsNothing() returns (store: AdvisoryStore, count: nat)
    ensures fresh(store)
    ensures count == 0
    ensures store.fileExists && store.saved == [Advisory("A", "affects server1", "x")]
  {
    var a := Advisory("A", "affects server1", "x");
    store := new AdvisoryStore.Holding([a]);
    var page := Page(OK_STATUS, [FullBlock(a)]);
    assert Fetched(page) == [a];
    ServerKept();
    NewEntriesSameList([a]);
    var checker := new HpeAdvisoryChecker("user", "secret", ["server1"], store);
    var reported;
    reported, count := checker.CheckNewAdvisories(page);
  }
}

/**
  The coverage policy of script/check-coverage.py: every tracked production
  contract that appears in the report must have all four metrics at exactly
  100; the exit code is 0 when that holds and 1 otherwise, or 1 when the
  coverage tool itself failed.
 */
module Gate {
  import opened Wrappers
  import opened PyText
  import opened PyOrder
  import opened Percent
  import opened Report

  /** The tracked production contracts, in the order they are checked. */
  const ProductionContracts: seq<string> := [
    "src/CollectibleCast.sol",
    "src/Metadata.sol",
    "src/Minter.sol",
    "src/TransferValidator.sol",
    "src/Auction.sol"
  ]

  /** The one source file the listing of source contracts always skips. */
  const ExcludedSource: string := "src/Counter.sol"

  /** All four metrics are exactly 100 (`v == 100.0`, no tolerance). */
  predicate FullyCovered(c: Coverage) {
    c.lines == 100.0 && c.statements == 100.0 && c.branches == 100.0 && c.functions == 100.0
  }

  /** The metrics of a record in the order the record lists them. */
  function Metrics(c: Coverage): (vs: seq<real>)
    ensures |vs| == 4
    ensures FullyCovered(c) <==> forall n :: 0 <= n < |vs| ==> vs[n] == 100.0
  {
    var vs := [c.lines, c.statements, c.branches, c.functions];
    assert vs[0] == c.lines && vs[1] == c.statements && vs[2] == c.branches && vs[3] == c.functions;
    assert (forall n :: 0 <= n < |vs| ==> vs[n] == 100.0) ==> FullyCovered(c);
    vs
  }

  /** The verdict: every tracked file that the report mentions is fully covered. */
  predicate Passes(coverage: map<string, Coverage>, tracked: seq<string>) {
    forall k :: k in tracked && k in coverage ==> FullyCovered(coverage[k])
  }

  /** The tracked files the report mentions, in tracked-list order. */
  function PresentTracked(tracked: seq<string>, coverage: map<string, Coverage>): seq<string>
  {
    if tracked == [] then []
    else
      var earlier := PresentTracked(tracked[..|tracked| - 1], coverage);
      var k := tracked[|tracked| - 1];
      if k in coverage then earlier + [k] else earlier
  }

  /**
    The evaluation loop: walk the tracked list, append every file the report
    mentions to the checked list, and clear the pass flag on any metric of
    such a file that is not exactly 100.
   */
  method Evaluate(coverage: map<string, Coverage>, tracked: seq<string>)
    returns (allPass: bool, checked: seq<string>)
    ensures checked == PresentTracked(tracked, coverage)
    ensures allPass == Passes(coverage, tracked)
  {
    allPass := true;
    checked := [];
    for i := 0 to |tracked|
      invariant checked == PresentTracked(tracked[..i], coverage)
      invariant allPass <==> forall j :: 0 <= j < i && tracked[j] in coverage ==> FullyCovered(coverage[tracked[j]])
    {
      assert tracked[..i + 1][..i] == tracked[..i];
      var contract := tracked[i];
      if contract in coverage {
        checked := checked + [contract];
        var values := Metrics(coverage[contract]);
        ghost var passedBefore := allPass;
        for n := 0 to |values|
          invariant allPass <==> passedBefore && forall m :: 0 <= m < n ==> values[m] == 100.0
        {
          if values[n] != 100.0 {
            allPass := false;
          }
        }
      }
    }
    assert tracked[..|tracked|] == tracked;
    assert allPass <==> forall j :: 0 <= j < |tracked| && tracked[j] in coverage ==> FullyCovered(coverage[tracked[j]]);
  }

  // ---------------------------------------------------------------- the listing of source contracts

  /** A key the listing of source contracts shows: under `src/`, other than `src/Counter.sol`. */
  predicate IsSourceFile(k: string) {
    "src/" <= k && k != ExcludedSource
  }

  /** One line of the listing: an untracked source file, or a checked one with its all-100 status. */
  datatype SourceEntry = NotTracked(key: string) | Checked(key: string, full: bool)

  /** The listing loop over `keys` (which must all be in the report), in their order. */
  function Listing(keys: seq<string>, coverage: map<string, Coverage>, tracked: seq<string>, checked: seq<string>)
    : seq<SourceEntry>
    requires forall i :: 0 <= i < |keys| ==> keys[i] in coverage
  {
    if keys == [] then []
    else
      var k := keys[0];
      var rest := Listing(keys[1..], coverage, tracked, checked);
      if !IsSourceFile(k) then rest
      else if k !in tracked then [NotTracked(k)] + rest
      else if k in checked then [Checked(k, FullyCovered(coverage[k]))] + rest
      else rest
  }

  /** The listing of source contracts, over the report's keys in sorted order. */
  function SourceListing(coverage: map<string, Coverage>, tracked: seq<string>, checked: seq<string>)
    : seq<SourceEntry>
  {
    Listing(SortedKeys(coverage.Keys), coverage, tracked, checked)
  }

  /** The keys flagged "not tracked", in listing order. */
  function UntrackedKeys(entries: seq<SourceEntry>): seq<string>
  {
    if entries == [] then []
    else if entries[0].NotTracked? then [entries[0].key] + UntrackedKeys(entries[1..])
    else UntrackedKeys(entries[1..])
  }

  /** The source files of the report that are not tracked. */
  function UntrackedSources(coverage: map<string, Coverage>, tracked: seq<string>): set<string>
  {
    set k | k in coverage.Keys && IsSourceFile(k) && k !in tracked
  }

  // ---------------------------------------------------------------- the whole run

  /** What the coverage tool did: printed its report, or failed with an error text. */
  datatype ToolRun = Completed(stdout: string) | Failed(stderr: string)

  /** Everything a completed run computes before it exits. */
  datatype Outcome = Outcome(coverage: map<string, Coverage>, checked: seq<string>,
                             sources: seq<SourceEntry>, allPass: bool)

  /**
    The gate: a failed tool run exits with 1 and builds nothing; otherwise the
    report is parsed, the tracked files evaluated and listed, and the exit code
    is 0 exactly when the verdict is pass.
   */
  method CheckCoverage(run: ToolRun) returns (exitCode: int, outcome: Option<Outcome>)
    ensures exitCode == 0 || exitCode == 1
    ensures exitCode == 0 <==>
            run.Completed? && Passes(ReportOf(Split(run.stdout, '\n')), ProductionContracts)
    ensures run.Failed? ==> outcome == None
    ensures outcome.Some? ==> Distinct(outcome.value.checked)
    ensures run.Completed? ==>
              var coverage := ReportOf(Split(run.stdout, '\n'));
              var checked := PresentTracked(ProductionContracts, coverage);
              outcome == Some(Outcome(coverage, checked,
                                      SourceListing(coverage, ProductionContracts, checked),
                                      Passes(coverage, ProductionContracts)))
  {
    match run {
      case Failed(_) =>
        return 1, None;
      case Completed(stdout) =>
        var coverage := ParseReport(stdout);
        var allPass, checked := Evaluate(coverage, ProductionContracts);
        ProductionContractsDistinct();
        PresentTrackedDistinct(ProductionContracts, coverage);
        var sources := SourceListing(coverage, ProductionContracts, checked);
        outcome := Some(Outcome(coverage, checked, sources, allPass));
        exitCode := if allPass then 0 else 1;
    }
  }

  // ---------------------------------------------------------------- properties of the evaluation

  predicate Distinct(s: seq<string>) {
    forall i, j :: 0 <= i < j < |s| ==> s[i] != s[j]
  }

  /** The tracked list names no file twice. */
  lemma ProductionContractsDistinct()
    ensures Distinct(ProductionContracts)
  {
  }

  /** The checked list holds exactly the tracked files the report mentions. */
  lemma {:induction false} PresentTrackedMembers(tracked: seq<string>, coverage: map<string, Coverage>, k: string)
    ensures k in PresentTracked(tracked, coverage) <==> k in tracked && k in coverage
  {
    if tracked != [] {
      var init := tracked[..|tracked| - 1];
      PresentTrackedMembers(init, coverage, k);
      assert tracked == init + [tracked[|tracked| - 1]];
    }
  }

  /** A tracked list without repeats gives a checked list without repeats. */
  lemma {:induction false} PresentTrackedDistinct(tracked: seq<string>, coverage: map<string, Coverage>)
    requires Distinct(tracked)
    ensures Distinct(PresentTracked(tracked, coverage))
  {
    if tracked != [] {
      var init := tracked[..|tracked| - 1];
      var k := tracked[|tracked| - 1];
      PresentTrackedDistinct(init, coverage);
      PresentTrackedMembers(init, coverage, k);
      assert k !in init;
    }
  }

  /** The verdict is the all-100 test over the checked list. */
  lemma PassesOverChecked(coverage: map<string, Coverage>, tracked: seq<string>)
    ensures var checked := PresentTracked(tracked, coverage);
      Passes(coverage, tracked) <==>
      forall k :: k in checked ==> k in coverage && FullyCovered(coverage[k])
  {
    forall k ensures k in PresentTracked(tracked, coverage) <==> k in tracked && k in coverage {
      PresentTrackedMembers(tracked, coverage, k);
    }
  }

  /**
    Keys the tracked list does not name never change the verdict, whether
    they are added or removed: untracked source files, the excluded
    `src/Counter.sol`, the table header, anything else.
   */
  lemma UntrackedKeyIrrelevant(coverage: map<string, Coverage>, tracked: seq<string>, k: string, c: Coverage)
    requires k !in tracked
    ensures Passes(coverage[k := c], tracked) == Passes(coverage, tracked)
    ensures Passes(coverage - {k}, tracked) == Passes(coverage, tracked)
  {
  }

  /** A report that mentions no tracked file passes, and nothing is checked. */
  lemma NothingTrackedPasses(coverage: map<string, Coverage>, tracked: seq<string>)
    requires forall k :: k in tracked ==> k !in coverage
    ensures Passes(coverage, tracked)
    ensures PresentTracked(tracked, coverage) == []
  {
    if PresentTracked(tracked, coverage) != [] {
      var k := PresentTracked(tracked, coverage)[0];
      PresentTrackedMembers(tracked, coverage, k);
    }
  }

  /** Whether every tracked file's last row in `lines` is fully covered. */
  ghost predicate LastRowsFull(lines: seq<string>, tracked: seq<string>) {
    forall i: nat, k :: LastRowFor(lines, i, k) && k in tracked ==> FullyCovered(ParseRow(lines[i]).value.coverage)
  }

  /**
    The verdict read off the report's text: pass exactly when, for every
    tracked file, its last row (if it has one) is fully covered.
   */
  lemma VerdictFromLastRows(lines: seq<string>, tracked: seq<string>)
    ensures Passes(ReportOf(lines), tracked) <==> LastRowsFull(lines, tracked)
  {
    if Passes(ReportOf(lines), tracked) {
      PassesGivesLastRowsFull(lines, tracked);
    } else {
      var coverage := ReportOf(lines);
      var k :| k in tracked && k in coverage && !FullyCovered(coverage[k]);
      ReportFromLastRow(lines, k);
    }
  }

  lemma PassesGivesLastRowsFull(lines: seq<string>, tracked: seq<string>)
    requires Passes(ReportOf(lines), tracked)
    ensures LastRowsFull(lines, tracked)
  {
    forall i: nat, k | LastRowFor(lines, i, k) && k in tracked
      ensures FullyCovered(ParseRow(lines[i]).value.coverage)
    {
      ReportLastWins(lines, i);
    }
  }

  // ---------------------------------------------------------------- properties of the listing

  /** Which entries the listing holds: every source key, flagged as untracked or with its status. */
  lemma {:induction false} ListingMembers(keys: seq<string>, coverage: map<string, Coverage>,
                                          tracked: seq<string>, checked: seq<string>, e: SourceEntry)
    requires forall i :: 0 <= i < |keys| ==> keys[i] in coverage
    requires forall k :: k in checked <==> k in tracked && k in coverage
    ensures e in Listing(keys, coverage, tracked, checked) <==>
            && e.key in keys && IsSourceFile(e.key)
            && (e.NotTracked? ==> e.key !in tracked)
            && (e.Checked? ==> e.key in tracked && e.full == FullyCovered(coverage[e.key]))
  {
    if keys != [] {
      ListingMembers(keys[1..], coverage, tracked, checked, e);
      assert forall k :: k in keys <==> k == keys[0] || k in keys[1..];
    }
  }

  /** The keys of a listing's entries, in listing order. */
  function EntryKeys(entries: seq<SourceEntry>): seq<string>
  {
    if entries == [] then [] else [entries[0].key] + EntryKeys(entries[1..])
  }

  /**
    A listing over strictly sorted keys lists only those keys, in strictly
    ascending order, so no source key is listed twice.
   */
  lemma {:induction false} ListingSorted(keys: seq<string>, coverage: map<string, Coverage>,
                                         tracked: seq<string>, checked: seq<string>)
    requires forall i :: 0 <= i < |keys| ==> keys[i] in coverage
    requires StrictlySorted(keys)
    ensures forall k :: k in EntryKeys(Listing(keys, coverage, tracked, checked)) ==> k in keys
    ensures StrictlySorted(EntryKeys(Listing(keys, coverage, tracked, checked)))
    ensures Distinct(EntryKeys(Listing(keys, coverage, tracked, checked)))
  {
    if keys != [] {
      var k, tail := keys[0], keys[1..];
      var rest := Listing(tail, coverage, tracked, checked);
      ListingSorted(tail, coverage, tracked, checked);
      var rk := EntryKeys(rest);
      assert forall x :: x in keys <==> x == k || x in tail;
      var l := Listing(keys, coverage, tracked, checked);
      if l != rest {
        assert l[1..] == rest;
        assert EntryKeys(l) == [k] + rk;
        forall x | x in rk ensures Below(k, x) {
          var j :| 0 <= j < |tail| && tail[j] == x;
          assert keys[j + 1] == x;
        }
        SortedCons(k, rk);
      }
    }
    SortedDistinct(EntryKeys(Listing(keys, coverage, tracked, checked)));
  }

  /** A string below every element of a strictly sorted sequence may be put in front of it. */
  lemma SortedCons(k: string, r: seq<string>)
    requires StrictlySorted(r)
    requires forall x :: x in r ==> Below(k, x)
    ensures StrictlySorted([k] + r)
  {
    var s := [k] + r;
    forall i, j | 0 <= i < j < |s| ensures Below(s[i], s[j]) {
      assert s[j] == r[j - 1];
      if i > 0 { assert s[i] == r[i - 1]; }
    }
  }

  /** A strictly sorted sequence has no repeats. */
  lemma SortedDistinct(r: seq<string>)
    requires StrictlySorted(r)
    ensures Distinct(r)
  {
    forall i, j | 0 <= i < j < |r| ensures r[i] != r[j] {
      BelowIrreflexive(r[i]);
    }
  }

  /** The untracked keys of a listing over sorted keys come out sorted, and are the untracked source keys. */
  lemma {:induction false} ListingUntracked(keys: seq<string>, coverage: map<string, Coverage>,
                                            tracked: seq<string>, checked: seq<string>)
    requires forall i :: 0 <= i < |keys| ==> keys[i] in coverage
    requires StrictlySorted(keys)
    ensures var u := UntrackedKeys(Listing(keys, coverage, tracked, checked));
      && StrictlySorted(u)
      && forall k :: k in u <==> k in keys && IsSourceFile(k) && k !in tracked
  {
    if keys != [] {
      var rest := Listing(keys[1..], coverage, tracked, checked);
      ListingUntracked(keys[1..], coverage, tracked, checked);
      var k := keys[0];
      assert forall x :: x in keys <==> x == k || x in keys[1..];
      if IsSourceFile(k) && k !in tracked {
        var u := UntrackedKeys(rest);
        assert UntrackedKeys([NotTracked(k)] + rest) == [k] + u by {
          assert ([NotTracked(k)] + rest)[1..] == rest;
        }
        forall j | 0 <= j < |u| ensures Below(k, u[j]) {
          assert u[j] in keys[1..];
          var i :| 0 <= i < |keys[1..]| && keys[1..][i] == u[j];
          assert keys[i + 1] == u[j];
        }
        BelowIrreflexive(k);
      } else if IsSourceFile(k) && k in checked {
        assert UntrackedKeys([Checked(k, FullyCovered(coverage[k]))] + rest) == UntrackedKeys(rest) by {
          assert ([Checked(k, FullyCovered(coverage[k]))] + rest)[1..] == rest;
        }
      }
    }
  }

  /**
    The keys flagged "not tracked" are exactly the report's source files that
    the tracked list does not name, in sorted order.
   */
  lemma NotTrackedListing(coverage: map<string, Coverage>, tracked: seq<string>, checked: seq<string>)
    ensures UntrackedKeys(SourceListing(coverage, tracked, checked)) ==
            SortedKeys(UntrackedSources(coverage, tracked))
  {
    var keys := SortedKeys(coverage.Keys);
    ListingUntracked(keys, coverage, tracked, checked);
    SortedUnique(UntrackedKeys(Listing(keys, coverage, tracked, checked)),
                 SortedKeys(UntrackedSources(coverage, tracked)));
  }

  /** The listing of source contracts is in ascending order and names every file at most once. */
  lemma SourceListingSorted(coverage: map<string, Coverage>, tracked: seq<string>, checked: seq<string>)
    ensures StrictlySorted(EntryKeys(SourceListing(coverage, tracked, checked)))
    ensures Distinct(EntryKeys(SourceListing(coverage, tracked, checked)))
    ensures forall k :: k in EntryKeys(SourceListing(coverage, tracked, checked)) ==> k in coverage
  {
    var keys := SortedKeys(coverage.Keys);
    assert forall i :: 0 <= i < |keys| ==> keys[i] in keys;
    ListingSorted(keys, coverage, tracked, checked);
  }

  // ---------------------------------------------------------------- a scenario from the report's text

  /** A metric cell as the tool prints it, ` W.F%` followed by the counts, as in ` 92.50% (37/40) `. */
  function PercentCell(whole: string, frac: string, counts: string): string
  {
    " " + whole + "." + frac + "%" + counts
  }

  /** The padding after `src/Auction.sol` in a file column as wide as `src/TransferValidator.sol` plus one space. */
  const AuctionPad: string := "           "

  /**
    The row the tool prints for `src/Auction.sol` when its branches are at 92.50%:
    `| src/Auction.sol           | 100.00% (40/40) | 100.00% (38/38) | 92.50% (37/40) | 100.00% (9/9) |`.
   */
  const AuctionShortRow: string :=
    RowText("src/Auction.sol", AuctionPad,
            [PercentCell("100", "00", " (40/40) "), PercentCell("100", "00", " (38/38) "),
             PercentCell("92", "50", " (37/40) "), PercentCell("100", "00", " (9/9) ")])

  /** That row is recognised under its file with exactly its four printed values; only branches falls short. */
  lemma AuctionShortRowParses()
    ensures ParseRow(AuctionShortRow) == Some(Row("src/Auction.sol", Coverage(100.0, 100.0, 92.5, 100.0)))
    ensures !FullyCovered(ParseRow(AuctionShortRow).value.coverage)
  {
    var key := "src/Auction.sol";
    var cells := [PercentCell("100", "00", " (40/40) "), PercentCell("100", "00", " (38/38) "),
                  PercentCell("92", "50", " (37/40) "), PercentCell("100", "00", " (9/9) ")];
    assert forall i :: 0 <= i < 4 ==> '|' !in cells[i];
    assert key[0] == 's' && key[|key| - 1] == 'l';
    assert Padding(AuctionPad);
    RowRoundTrip(key, AuctionPad, cells);
    FullCell(" (40/40) ");
    FullCell(" (38/38) ");
    ShortBranchesCell();
    FullCell(" (9/9) ");
  }

  /** A cell ` 100.00%` followed by any counts reads exactly 100. */
  lemma FullCell(counts: string)
    ensures MetricOf(PercentCell("100", "00", counts)) == 100.0
  {
    CellValue(" ", "100", "00", counts);
    DecimalIsHundred("100", "00");
    assert NatOf("100") == 100 by {
      assert "100"[..2] == "10" && "10"[..1] == "1";
    }
  }

  /** The cell ` 92.50% (37/40) ` reads 92.5. */
  lemma ShortBranchesCell()
    ensures MetricOf(PercentCell("92", "50", " (37/40) ")) == 92.5
  {
    CellValue(" ", "92", "50", " (37/40) ");
    assert NatOf("92") == 92 by {
      assert "92"[..1] == "9";
    }
    assert NatOf("50") == 50 by {
      assert "50"[..1] == "5";
    }
    assert Pow10(|"50"|) == 100;
  }

  /**
    A tracked file whose last row in the report is not fully covered makes
    the verdict fail, whatever the other rows say.
   */
  lemma LastRowShortfallFails(before: seq<string>, row: string, after: seq<string>, tracked: seq<string>)
    requires ParseRow(row).Some? && ParseRow(row).value.key in tracked
    requires !FullyCovered(ParseRow(row).value.coverage)
    requires forall j :: 0 <= j < |after| && ParseRow(after[j]).Some? ==>
               ParseRow(after[j]).value.key != ParseRow(row).value.key
    ensures !Passes(ReportOf(before + [row] + after), tracked)
  {
    var lines := before + [row] + after;
    var i := |before|;
    assert lines[i] == row;
    assert forall j :: 0 <= j < |after| ==> lines[i + 1 + j] == after[j];
    assert forall j :: i < j < |lines| ==> lines[j] == after[j - i - 1];
    ReportLastWins(lines, i);
  }

  /**
    Wherever that row stands in the report, provided no later row names the
    same file, the verdict is fail.
   */
  lemma AuctionShortBranchesFails(before: seq<string>, after: seq<string>)
    requires forall j :: 0 <= j < |after| && ParseRow(after[j]).Some? ==>
               ParseRow(after[j]).value.key != "src/Auction.sol"
    ensures !Passes(ReportOf(before + [AuctionShortRow] + after), ProductionContracts)
  {
    AuctionShortRowParses();
    assert ProductionContracts[4] == "src/Auction.sol";
    LastRowShortfallFails(before, AuctionShortRow, after, ProductionContracts);
  }
}

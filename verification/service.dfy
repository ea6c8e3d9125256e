/**
 The two lookups the service offers on top of the upstream polymer database:
 the monomer listing (`All_Monomers`) and the per-solution `kp` tables
 (`Monomer_kp_info`).

 The upstream site and the HTML parser are one parameter, `Upstream`: for
 each request it gives the parsed contents of the reply. Every operation
 returns, next to its result, the requests it sent, in order, so that what
 happens before and after the first network call can be stated.
 */
module Service {
  import opened Common
  import opened PyOps
  import opened Scrape

  /** The identifier schemes the upstream database accepts. */
  const Identifiers := ["name", "SMILES", "CAS", "InChI", "InChIKey", "abbreviation"]

  /** The one coefficient the service collects. */
  const Coefficient := "kp"

  /** The form posted to the upstream main page for one table. */
  datatype Form = Form(identifier: string, monomer: string, coefficient: string, solution: string)

  /** A request to the upstream site. */
  datatype Request =
    | GetMonomers(identifier: string)                 // GET getMonomers.php
    | GetSolutions(identifier: string, monomer: string) // GET getSolutionAndCoefficient.php
    | PostTable(form: Form)                           // POST index.php

  /** The reply to `GetSolutions`: its raw body and the texts of its `<option>`s. */
  datatype SolutionsPage = SolutionsPage(body: seq<byte>, options: seq<string>)

  /** The upstream site seen through the parser. The reply to a table
      request may depend on how many table requests came before it. */
  datatype Upstream = Upstream(
    monomerNodes: string -> seq<string>,
    solutionsPage: (string, string) -> SolutionsPage,
    tablePage: (nat, Form) -> TablePage)

  /** A result together with the requests sent to obtain it. */
  datatype Exchange<+T> = Exchange(result: Result<T>, sent: seq<Request>)

  /** Solution label to info record. */
  type KpTable<F> = map<string, Record<F>>

  /** Coefficient name to table; the service only fills in `kp`. */
  type CoefficientSet<F> = map<string, KpTable<F>>

  // ---------------------------------------------------------------------------
  // Monomer listing
  // ---------------------------------------------------------------------------

  /** `All_Monomers`: an unknown identifier is rejected before any request;
      otherwise the texts of the listing's top-level nodes, without the last. */
  function AllMonomers(identifier: string, up: Upstream): (r: Exchange<seq<string>>)
    ensures identifier !in Identifiers ==> r == Exchange(Err(InvalidIdentifier(identifier)), [])
    ensures identifier in Identifiers ==>
              var nodes := up.monomerNodes(identifier);
              && r.sent == [GetMonomers(identifier)]
              && r.result.Ok?
              && |r.result.value| == (if |nodes| == 0 then 0 else |nodes| - 1)
              && r.result.value <= nodes
              && (|nodes| > 0 ==> r.result.value + [nodes[|nodes| - 1]] == nodes)
  {
    if identifier !in Identifiers then Exchange(Err(InvalidIdentifier(identifier)), [])
    else
      var nodes := up.monomerNodes(identifier);
      var monomers := Slice(nodes, 0, |nodes| - 1);
      assert |nodes| > 0 ==> monomers == nodes[..|nodes| - 1];
      Exchange(Ok(monomers), [GetMonomers(identifier)])
  }

  // ---------------------------------------------------------------------------
  // kp tables
  // ---------------------------------------------------------------------------

  /** The form for the `kp` table of one solution. */
  function TableForm(identifier: string, monomer: string, solution: string): Form
  {
    Form(identifier, monomer, Coefficient, solution)
  }

  /** The reply to the `i`-th table request, the one for `solutions[i]`. */
  function PageAt(identifier: string, monomer: string, solutions: seq<string>, up: Upstream, i: nat): TablePage
    requires i < |solutions|
  {
    up.tablePage(i, TableForm(identifier, monomer, solutions[i]))
  }

  /** The `i`-th table page yields a record under `extract`. */
  predicate PageYields<F>(identifier: string, monomer: string, solutions: seq<string>, up: Upstream,
                          extract: TablePage -> Result<Record<F>>, i: nat)
    requires i < |solutions|
  {
    extract(PageAt(identifier, monomer, solutions, up, i)).Ok?
  }

  /** The loop over the solution labels, with `extract` turning a page into
      a record: one table request per label, in order, stopping at the first
      page that yields no record. It succeeds exactly when every page yields
      one, and then the table's labels are the listed ones. */
  function CollectTables<F>(identifier: string, monomer: string, solutions: seq<string>,
                            up: Upstream, extract: TablePage -> Result<Record<F>>): (r: Exchange<KpTable<F>>)
    ensures |r.sent| <= |solutions|
    ensures forall i :: 0 <= i < |r.sent| ==> r.sent[i] == PostTable(TableForm(identifier, monomer, solutions[i]))
    ensures r.result.Ok? <==> forall i :: 0 <= i < |solutions| ==> PageYields(identifier, monomer, solutions, up, extract, i)
    ensures r.result.Ok? ==>
              && |r.sent| == |solutions|
              && forall sol :: sol in r.result.value <==> sol in solutions
    decreases |solutions|
  {
    if |solutions| == 0 then Exchange(Ok(map[]), [])
    else
      var k := |solutions| - 1;
      var init := solutions[..k];
      var prev := CollectTables(identifier, monomer, init, up, extract);
      PagesOfPrefix(identifier, monomer, solutions, up, extract, k);
      if prev.result.Err? then prev
      else
        var form := TableForm(identifier, monomer, solutions[k]);
        var sent := prev.sent + [PostTable(form)];
        assert PageAt(identifier, monomer, solutions, up, k) == up.tablePage(k, form);
        match extract(up.tablePage(k, form))
        case Err(e) =>
          assert !PageYields(identifier, monomer, solutions, up, extract, k);
          Exchange(Err(e), sent)
        case Ok(record) =>
          assert PageYields(identifier, monomer, solutions, up, extract, k);
          assert forall sol :: sol in solutions <==> sol in init || sol == solutions[k];
          Exchange(Ok(prev.result.value[solutions[k] := record]), sent)
  }

  /** A prefix of the label list sends the same forms and sees the same pages. */
  lemma PagesOfPrefix<F>(identifier: string, monomer: string, solutions: seq<string>, up: Upstream,
                         extract: TablePage -> Result<Record<F>>, n: nat)
    requires n <= |solutions|
    ensures forall i :: 0 <= i < n ==> solutions[..n][i] == solutions[i]
    ensures forall i :: 0 <= i < n ==>
              PageAt(identifier, monomer, solutions[..n], up, i) == PageAt(identifier, monomer, solutions, up, i)
    ensures forall i :: 0 <= i < n ==>
              PageYields(identifier, monomer, solutions[..n], up, extract, i) == PageYields(identifier, monomer, solutions, up, extract, i)
  {
  }

  /** For each label, `table` holds the record extracted from the page
      fetched for the label's last occurrence. */
  ghost predicate KeepsLastRecord<F>(identifier: string, monomer: string, solutions: seq<string>, up: Upstream,
                               extract: TablePage -> Result<Record<F>>, table: KpTable<F>)
  {
    forall i :: 0 <= i < |solutions| && LastAt(solutions, |solutions|, i) ==>
      solutions[i] in table && extract(PageAt(identifier, monomer, solutions, up, i)) == Ok(table[solutions[i]])
  }

  /** A successful collection holds, for each label, the record of the page
      fetched for its last occurrence: a later duplicate overwrites. */
  lemma {:induction false} CollectTablesLastWins<F>(identifier: string, monomer: string, solutions: seq<string>,
                                                   up: Upstream, extract: TablePage -> Result<Record<F>>)
    requires CollectTables(identifier, monomer, solutions, up, extract).result.Ok?
    ensures KeepsLastRecord(identifier, monomer, solutions, up, extract,
                            CollectTables(identifier, monomer, solutions, up, extract).result.value)
    decreases |solutions|
  {
    if |solutions| > 0 {
      var k := |solutions| - 1;
      var init := solutions[..k];
      var table := CollectTablesStep(identifier, monomer, solutions, up, extract);
      CollectTablesLastWins(identifier, monomer, init, up, extract);
      var prev := CollectTables(identifier, monomer, init, up, extract).result.value;
      LastWinsExtend(identifier, monomer, solutions, up, extract, prev, table);
    }
  }

  /** Last-wins is kept when one more label and its record are added. */
  lemma LastWinsExtend<F>(identifier: string, monomer: string, solutions: seq<string>, up: Upstream,
                          extract: TablePage -> Result<Record<F>>, prev: KpTable<F>, table: KpTable<F>)
    requires |solutions| > 0
    requires var k := |solutions| - 1;
             && extract(PageAt(identifier, monomer, solutions, up, k)).Ok?
             && table == prev[solutions[k] := extract(PageAt(identifier, monomer, solutions, up, k)).value]
             && KeepsLastRecord(identifier, monomer, solutions[..k], up, extract, prev)
    ensures KeepsLastRecord(identifier, monomer, solutions, up, extract, table)
  {
    var k := |solutions| - 1;
    var init := solutions[..k];
    forall i | 0 <= i < |solutions| && LastAt(solutions, |solutions|, i)
      ensures solutions[i] in table && extract(PageAt(identifier, monomer, solutions, up, i)) == Ok(table[solutions[i]])
    {
      if i < k {
        assert LastAt(init, k, i);
        assert init[i] == solutions[i];
        assert PageAt(identifier, monomer, init, up, i) == PageAt(identifier, monomer, solutions, up, i);
        assert solutions[i] != solutions[k];
      }
    }
  }

  /** One step of a successful collection: the table of all labels is the
      table of all but the last, updated with the last page's record. */
  lemma CollectTablesStep<F>(identifier: string, monomer: string, solutions: seq<string>,
                             up: Upstream, extract: TablePage -> Result<Record<F>>)
    returns (table: KpTable<F>)
    requires |solutions| > 0
    requires CollectTables(identifier, monomer, solutions, up, extract).result.Ok?
    ensures var k := |solutions| - 1;
            && CollectTables(identifier, monomer, solutions[..k], up, extract).result.Ok?
            && extract(PageAt(identifier, monomer, solutions, up, k)).Ok?
            && table == CollectTables(identifier, monomer, solutions, up, extract).result.value
            && table == CollectTables(identifier, monomer, solutions[..k], up, extract).result.value
                          [solutions[k] := extract(PageAt(identifier, monomer, solutions, up, k)).value]
            && forall i :: 0 <= i < k ==> PageAt(identifier, monomer, solutions[..k], up, i) == PageAt(identifier, monomer, solutions, up, i)
  {
    var k := |solutions| - 1;
    PagesOfPrefix(identifier, monomer, solutions, up, extract, k);
    table := CollectTables(identifier, monomer, solutions, up, extract).result.value;
  }

  /** A failed collection stopped at its last request: every earlier page
      yielded a record, and the error is the one of that last page. */
  lemma {:induction false} CollectTablesStopsAtFailure<F>(identifier: string, monomer: string, solutions: seq<string>,
                                                         up: Upstream, extract: TablePage -> Result<Record<F>>)
    requires CollectTables(identifier, monomer, solutions, up, extract).result.Err?
    ensures var r := CollectTables(identifier, monomer, solutions, up, extract);
            var k := |r.sent| - 1;
            && 0 <= k < |solutions|
            && (forall i :: 0 <= i < k ==> PageYields(identifier, monomer, solutions, up, extract, i))
            && extract(PageAt(identifier, monomer, solutions, up, k)) == Err(r.result.error)
    decreases |solutions|
  {
    var k := |solutions| - 1;
    var init := solutions[..k];
    PagesOfPrefix(identifier, monomer, solutions, up, extract, k);
    assert PageAt(identifier, monomer, solutions, up, k) == up.tablePage(k, TableForm(identifier, monomer, solutions[k]));
    if CollectTables(identifier, monomer, init, up, extract).result.Err? {
      CollectTablesStopsAtFailure(identifier, monomer, init, up, extract);
    }
  }

  /** `Monomer_kp_info`: reject an unknown identifier before any request;
      fetch the solution list and report a monomer the database does not
      know (empty body); then collect the `kp` table for every solution. */
  function MonomerKpInfo<F>(identifier: string, monomer: string, up: Upstream,
                            parse: string -> Option<F>): (r: Exchange<CoefficientSet<F>>)
    ensures identifier !in Identifiers ==> r == Exchange(Err(InvalidIdentifier(identifier)), [])
    ensures identifier in Identifiers ==> |r.sent| > 0 && r.sent[0] == GetSolutions(identifier, monomer)
    ensures identifier in Identifiers && |up.solutionsPage(identifier, monomer).body| == 0 ==>
              r == Exchange(Err(MonomerNotFound(monomer)), [GetSolutions(identifier, monomer)])
    ensures identifier in Identifiers && |up.solutionsPage(identifier, monomer).body| > 0 ==>
              var options := up.solutionsPage(identifier, monomer).options;
              && 1 <= |r.sent| <= 1 + |options|
              && forall i :: 1 <= i < |r.sent| ==> r.sent[i] == PostTable(TableForm(identifier, monomer, options[i - 1]))
    ensures r.result.Ok? ==>
              var options := up.solutionsPage(identifier, monomer).options;
              && identifier in Identifiers
              && |up.solutionsPage(identifier, monomer).body| > 0
              && r.result.value.Keys == {Coefficient}
              && |r.sent| == 1 + |options|
              && forall sol :: sol in r.result.value[Coefficient] <==> sol in options
  {
    if identifier !in Identifiers then Exchange(Err(InvalidIdentifier(identifier)), [])
    else
      var listing := up.solutionsPage(identifier, monomer);
      if |listing.body| == 0 then Exchange(Err(MonomerNotFound(monomer)), [GetSolutions(identifier, monomer)])
      else
        var tables := CollectTables(identifier, monomer, listing.options, up, SolutionRecord(parse));
        var sent := [GetSolutions(identifier, monomer)] + tables.sent;
        match tables.result
        case Err(e) => Exchange(Err(e), sent)
        case Ok(kp) => Exchange(Ok(map[Coefficient := kp]), sent)
  }

  /** The per-page pipeline the service runs on every solution page. */
  function SolutionRecord<F>(parse: string -> Option<F>): TablePage -> Result<Record<F>>
  {
    page => TableRecord(page, parse)
  }

  /** Page by page, the service's pipeline yields a record exactly when the
      page has a usable Reference link, and otherwise fails with the lookup's
      error. */
  lemma PagesNeedReference<F>(identifier: string, monomer: string, solutions: seq<string>, up: Upstream,
                              parse: string -> Option<F>)
    ensures forall i :: 0 <= i < |solutions| ==>
              (PageYields(identifier, monomer, solutions, up, SolutionRecord(parse), i) <==>
               FindReference(PageAt(identifier, monomer, solutions, up, i).anchors).Ok?)
    ensures forall i :: 0 <= i < |solutions| && !PageYields(identifier, monomer, solutions, up, SolutionRecord(parse), i) ==>
              SolutionRecord(parse)(PageAt(identifier, monomer, solutions, up, i)) ==
                Err(FindReference(PageAt(identifier, monomer, solutions, up, i).anchors).error)
  {
    forall i | 0 <= i < |solutions|
      ensures SolutionRecord(parse)(PageAt(identifier, monomer, solutions, up, i)) ==
                TableRecord(PageAt(identifier, monomer, solutions, up, i), parse)
    {
    }
  }

  /** Once the monomer is found, the whole lookup succeeds exactly when every
      solution page has a usable Reference link: one page without it aborts
      the aggregation. */
  lemma KpInfoNeedsEveryReference<F>(identifier: string, monomer: string, up: Upstream, parse: string -> Option<F>)
    requires identifier in Identifiers
    requires |up.solutionsPage(identifier, monomer).body| > 0
    ensures var options := up.solutionsPage(identifier, monomer).options;
            MonomerKpInfo(identifier, monomer, up, parse).result.Ok? <==>
              forall i :: 0 <= i < |options| ==> FindReference(PageAt(identifier, monomer, options, up, i).anchors).Ok?
  {
    var options := up.solutionsPage(identifier, monomer).options;
    var tables := CollectTables(identifier, monomer, options, up, SolutionRecord(parse));
    assert MonomerKpInfo(identifier, monomer, up, parse).result.Ok? <==> tables.result.Ok?;
    PagesNeedReference(identifier, monomer, options, up, parse);
  }

  /** Page `k` is the first of the fetched pages without a usable Reference
      link, and its lookup failed with `e`. */
  ghost predicate FirstMissingReference(identifier: string, monomer: string, solutions: seq<string>, up: Upstream,
                                        k: int, e: Error)
  {
    && 0 <= k < |solutions|
    && (forall i :: 0 <= i < k ==> FindReference(PageAt(identifier, monomer, solutions, up, i).anchors).Ok?)
    && FindReference(PageAt(identifier, monomer, solutions, up, k).anchors) == Err(e)
  }

  /** With the service's pipeline, a failed collection stopped at the first
      page without a usable Reference link, with that page's lookup error. */
  lemma CollectStopsAtMissingReference<F>(identifier: string, monomer: string, solutions: seq<string>, up: Upstream,
                                          parse: string -> Option<F>)
    requires CollectTables(identifier, monomer, solutions, up, SolutionRecord(parse)).result.Err?
    ensures var r := CollectTables(identifier, monomer, solutions, up, SolutionRecord(parse));
            FirstMissingReference(identifier, monomer, solutions, up, |r.sent| - 1, r.result.error)
  {
    CollectTablesStopsAtFailure(identifier, monomer, solutions, up, SolutionRecord(parse));
    PagesNeedReference(identifier, monomer, solutions, up, parse);
  }

  /** A lookup that fails after the monomer was found stopped at the first
      solution page without a usable Reference link, with that page's error
      (a Reference anchor without `href`, or no Reference anchor at all);
      every page before it was fetched and had a link. */
  lemma KpInfoStopsAtMissingReference<F>(identifier: string, monomer: string, up: Upstream, parse: string -> Option<F>)
    requires identifier in Identifiers
    requires |up.solutionsPage(identifier, monomer).body| > 0
    requires MonomerKpInfo(identifier, monomer, up, parse).result.Err?
    ensures var r := MonomerKpInfo(identifier, monomer, up, parse);
            FirstMissingReference(identifier, monomer, up.solutionsPage(identifier, monomer).options, up,
                                  |r.sent| - 2, r.result.error)
    ensures var e := MonomerKpInfo(identifier, monomer, up, parse).result.error;
            e == ReferenceWithoutHref || e == NoReferenceLink
  {
    var options := up.solutionsPage(identifier, monomer).options;
    var tables := CollectTables(identifier, monomer, options, up, SolutionRecord(parse));
    var r := MonomerKpInfo(identifier, monomer, up, parse);
    assert r.result.error == tables.result.error;
    assert |r.sent| - 2 == |tables.sent| - 1;
    CollectStopsAtMissingReference(identifier, monomer, options, up, parse);
  }

  /** In a successful lookup each solution label maps to the record of the
      page fetched for its last occurrence in the listing. */
  lemma KpInfoLastWins<F>(identifier: string, monomer: string, up: Upstream, parse: string -> Option<F>)
    requires MonomerKpInfo(identifier, monomer, up, parse).result.Ok?
    ensures var options := up.solutionsPage(identifier, monomer).options;
            var kp := MonomerKpInfo(identifier, monomer, up, parse).result.value[Coefficient];
            forall i :: 0 <= i < |options| && LastAt(options, |options|, i) ==>
              && options[i] in kp
              && TableRecord(PageAt(identifier, monomer, options, up, i), parse) == Ok(kp[options[i]])
  {
    var options := up.solutionsPage(identifier, monomer).options;
    var extract := SolutionRecord(parse);
    CollectTablesLastWins(identifier, monomer, options, up, extract);
    forall i | 0 <= i < |options|
      ensures extract(PageAt(identifier, monomer, options, up, i)) == TableRecord(PageAt(identifier, monomer, options, up, i), parse)
    {
    }
  }
}

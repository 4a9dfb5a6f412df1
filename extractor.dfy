/**
 * The Extraction Orchestrator: login, then the listing, then each candidate's detail
 * page inside its own failure boundary, folded into the report. The browser's answers
 * are inputs: the login run, the listing page and, per candidate, its detail page.
 * The report's timestamp comes from the clock and is not modelled.
 */
module Extractor {
  import opened Wrappers
  import opened Login
  import opened Listing
  import opened Detail

  /** What fetching a candidate's detail page gave: a fault, or its table rows as cell texts. */
  datatype DetailPage = DetailFault(message: string) | DetailLoaded(rows: seq<seq<string>>)

  /** The listing page: a fault while loading it, or whether the order table was found. */
  datatype ListingPage =
    | ListingFault(message: string)
    | ListingLoaded(table: Option<seq<seq<ListingCell>>>)

  /** A candidate extended with its line items. */
  datatype Order = Order(pedido: Pedido, productos: seq<Producto>)

  datatype Stats = Stats(totalPedidos: nat, totalProductos: nat)

  datatype Report = Report(success: bool, fecha: string, pedidos: seq<Order>,
                           error: Option<string>, stats: Stats)

  /**
   * How a run ends: aborted by a top-level fault (the report is not saved), or
   * finished with the report that is saved.
   */
  datatype RunOutcome = Aborted(report: Report) | Finished(report: Report)

  const LoginFailedMessage: string := "Login falló"

  /** The report as first built: not yet successful, no orders, both counters zero. */
  function InitialReport(fecha: string): Report {
    Report(false, fecha, [], None, Stats(0, 0))
  }

  /** The process exit code: 1 after a top-level fault, otherwise 0 exactly when successful. */
  function ExitCode(outcome: RunOutcome): (code: int)
    ensures code == 0 <==> outcome.Finished? && outcome.report.success
    ensures code == 0 || code == 1
  {
    match outcome
    case Aborted(_) => 1
    case Finished(r) => if r.success then 0 else 1
  }

  // ---------------------------------------------------------------- candidates

  /** The candidates of the listing: none without the table, else the filtered records. */
  function Candidates(table: Option<seq<seq<ListingCell>>>, fecha: string): (ps: seq<Pedido>)
    ensures table.None? ==> ps == []
    ensures forall p :: p in ps ==>
              p.fechaFormatted == Some(fecha) && EndsWithPedidoId(p.href, p.id)
  {
    match table
    case None => []
    case Some(rows) =>
      var parsed := ParsedRecords(rows);
      var kept := Filtered(parsed, fecha);
      assert forall q :: q in kept ==> EndsWithPedidoId(q.href, q.id) by {
        forall q | q in kept ensures EndsWithPedidoId(q.href, q.id) {
          FilteredMembership(parsed, fecha, q);
        }
      }
      kept
  }

  /** A candidate is a row's record, with the target date, stamped with it. */
  lemma CandidateIff(rows: seq<seq<ListingCell>>, fecha: string, q: Pedido)
    ensures q in Candidates(Some(rows), fecha) <==>
              exists i :: 0 <= i < |rows| && ParseRow(rows[i]).Some?
                          && FormatDate(ParseRow(rows[i]).value.fecha) == Some(fecha)
                          && q == ParseRow(rows[i]).value.(fechaFormatted := Some(fecha))
  {
    var parsed := ParsedRecords(rows);
    FilteredMembership(parsed, fecha, q);
    forall p ensures p in parsed <==> exists i :: 0 <= i < |rows| && ParseRow(rows[i]) == Some(p) {
      ParsedRecordsMembership(rows, p);
    }
  }

  /** The listing stage: no table means no candidates; otherwise parse, then filter. */
  method GetPedidos(table: Option<seq<seq<ListingCell>>>, fecha: string) returns (pedidos: seq<Pedido>)
    ensures pedidos == Candidates(table, fecha)
  {
    if table.None? {
      return [];
    }
    var parsed := ParseListing(table.value);
    pedidos := FilterByDate(parsed, fecha);
  }

  // ---------------------------------------------------------------- aggregation

  /** The orders the detail pages yield: the candidates whose fetch did not fault, in order. */
  function SuccessfulOrders(candidates: seq<Pedido>, detail: Pedido -> DetailPage): (os: seq<Order>)
    ensures |os| <= |candidates|
    ensures forall o :: o in os ==>
              o.pedido in candidates && detail(o.pedido).DetailLoaded?
              && o.productos == Products(detail(o.pedido).rows)
  {
    if candidates == [] then []
    else
      var init := SuccessfulOrders(candidates[..|candidates| - 1], detail);
      var p := candidates[|candidates| - 1];
      match detail(p)
      case DetailFault(_) => init
      case DetailLoaded(rows) => init + [Order(p, Products(rows))]
  }

  /** Orders keep listing order: two blocks of candidates give the first block's orders, then the second's. */
  lemma {:induction false} SuccessfulOrdersAppend(a: seq<Pedido>, b: seq<Pedido>, detail: Pedido -> DetailPage)
    ensures SuccessfulOrders(a + b, detail) == SuccessfulOrders(a, detail) + SuccessfulOrders(b, detail)
    decreases |b|
  {
    if b == [] {
      assert a + b == a;
    } else {
      var b' := b[..|b| - 1];
      assert (a + b)[..|a + b| - 1] == a + b';
      assert (a + b)[|a + b| - 1] == b[|b| - 1];
      SuccessfulOrdersAppend(a, b', detail);
    }
  }

  /** The total number of line items over a sequence of orders. */
  function ProductCount(orders: seq<Order>): nat {
    if orders == [] then 0
    else ProductCount(orders[..|orders| - 1]) + |orders[|orders| - 1].productos|
  }

  /** Number of candidates whose detail fetch faulted. */
  function Failures(candidates: seq<Pedido>, detail: Pedido -> DetailPage): nat {
    if candidates == [] then 0
    else Failures(candidates[..|candidates| - 1], detail)
         + (if detail(candidates[|candidates| - 1]).DetailFault? then 1 else 0)
  }

  /** Failures are isolated: every candidate whose fetch did not fault becomes an order. */
  lemma {:induction false} OrdersPlusFailures(candidates: seq<Pedido>, detail: Pedido -> DetailPage)
    ensures |SuccessfulOrders(candidates, detail)| + Failures(candidates, detail) == |candidates|
  {
    if candidates != [] {
      OrdersPlusFailures(candidates[..|candidates| - 1], detail);
    }
  }

  /** Failures can be counted block by block. */
  lemma {:induction false} FailuresAppend(a: seq<Pedido>, b: seq<Pedido>, detail: Pedido -> DetailPage)
    ensures Failures(a + b, detail) == Failures(a, detail) + Failures(b, detail)
    decreases |b|
  {
    if b == [] {
      assert a + b == a;
    } else {
      assert (a + b)[..|a + b| - 1] == a + b[..|b| - 1];
      FailuresAppend(a, b[..|b| - 1], detail);
    }
  }

  /** With exactly one faulting candidate among N, the report holds N - 1 orders. */
  lemma OneFailureIsolated(candidates: seq<Pedido>, detail: Pedido -> DetailPage, k: nat)
    requires k < |candidates| && detail(candidates[k]).DetailFault?
    requires forall j :: 0 <= j < |candidates| && j != k ==> detail(candidates[j]).DetailLoaded?
    ensures |SuccessfulOrders(candidates, detail)| == |candidates| - 1
  {
    OrdersPlusFailures(candidates, detail);
    var a, b := candidates[..k], candidates[k + 1..];
    assert candidates == a + [candidates[k]] + b;
    NoFailures(a, detail);
    NoFailures(b, detail);
    FailuresAppend(a + [candidates[k]], b, detail);
    FailuresAppend(a, [candidates[k]], detail);
    assert Failures([candidates[k]], detail) == 1 by {
      assert [candidates[k]][..0] == [];
    }
  }

  lemma {:induction false} NoFailures(candidates: seq<Pedido>, detail: Pedido -> DetailPage)
    requires forall j :: 0 <= j < |candidates| ==> detail(candidates[j]).DetailLoaded?
    ensures Failures(candidates, detail) == 0
  {
    if candidates != [] {
      NoFailures(candidates[..|candidates| - 1], detail);
    }
  }

  /** An order is in the report exactly when its candidate's detail page loaded. */
  lemma {:induction false} OrderMembership(candidates: seq<Pedido>, detail: Pedido -> DetailPage, o: Order)
    ensures o in SuccessfulOrders(candidates, detail) <==>
              exists i :: 0 <= i < |candidates| && detail(candidates[i]).DetailLoaded?
                          && o == Order(candidates[i], Products(detail(candidates[i]).rows))
    decreases |candidates|
  {
    if candidates != [] {
      var init := candidates[..|candidates| - 1];
      OrderMembership(init, detail, o);
      if exists i :: 0 <= i < |candidates| && detail(candidates[i]).DetailLoaded?
                     && o == Order(candidates[i], Products(detail(candidates[i]).rows)) {
        var i :| 0 <= i < |candidates| && detail(candidates[i]).DetailLoaded?
                 && o == Order(candidates[i], Products(detail(candidates[i]).rows));
        if i < |candidates| - 1 {
          assert init[i] == candidates[i];
        }
      }
    }
  }

  /** When no fetch faults, every candidate becomes an order, in the same position. */
  lemma {:induction false} NoFaultKeepsAll(candidates: seq<Pedido>, detail: Pedido -> DetailPage)
    requires forall j :: 0 <= j < |candidates| ==> detail(candidates[j]).DetailLoaded?
    ensures |SuccessfulOrders(candidates, detail)| == |candidates|
    ensures forall j :: 0 <= j < |candidates| ==>
              SuccessfulOrders(candidates, detail)[j] ==
                Order(candidates[j], Products(detail(candidates[j]).rows))
  {
    if candidates != [] {
      var n := |candidates|;
      var init := candidates[..n - 1];
      NoFaultKeepsAll(init, detail);
      var last := candidates[n - 1];
      var os := SuccessfulOrders(candidates, detail);
      assert os == SuccessfulOrders(init, detail) + [Order(last, Products(detail(last).rows))];
      forall j | 0 <= j < n
        ensures os[j] == Order(candidates[j], Products(detail(candidates[j]).rows))
      {
        if j < n - 1 {
          assert init[j] == candidates[j];
        }
      }
    }
  }

  /**
   * Two candidates, the first with a one-row detail table whose row has a reference
   * code and the second faulting: one order with that row's item, one item in all.
   */
  lemma OneLoadedOneFaulted(a: Pedido, b: Pedido, row: seq<string>, detail: Pedido -> DetailPage)
    requires detail(a) == DetailLoaded([row]) && RowItem(row).Some?
    requires detail(b).DetailFault?
    ensures SuccessfulOrders([a, b], detail) == [Order(a, [RowItem(row).value])]
    ensures ProductCount(SuccessfulOrders([a, b], detail)) == 1
  {
    assert [a, b][..1] == [a];
    assert [a][..0] == [];
    assert [row][..0] == [];
    assert Products([row]) == [RowItem(row).value];
    var os := [Order(a, [RowItem(row).value])];
    assert os[..0] == [];
  }

  /**
   * The detail loop: each candidate's page is fetched in turn; a fault skips the
   * candidate, otherwise its items are attached, it is appended and its items counted.
   */
  method Aggregate(fecha: string, candidates: seq<Pedido>, detail: Pedido -> DetailPage)
    returns (report: Report)
    ensures report.success && report.fecha == fecha && report.error == None
    ensures report.pedidos == SuccessfulOrders(candidates, detail)
    ensures report.stats == Stats(|report.pedidos|, ProductCount(report.pedidos))
  {
    report := InitialReport(fecha);
    if |candidates| == 0 {
      report := report.(success := true, pedidos := []);
      return;
    }
    var i := 0;
    while i < |candidates|
      invariant 0 <= i <= |candidates|
      invariant report.pedidos == SuccessfulOrders(candidates[..i], detail)
      invariant report.stats == Stats(0, ProductCount(report.pedidos))
      invariant report.success == false && report.fecha == fecha && report.error == None
    {
      var pedido := candidates[i];
      assert candidates[..i + 1][..i] == candidates[..i];
      match detail(pedido) {
        case DetailFault(_) =>
        case DetailLoaded(rows) =>
          var productos := ExtractProducts(rows);
          var orders := report.pedidos + [Order(pedido, productos)];
          assert orders[..|orders| - 1] == report.pedidos;
          report := report.(pedidos := orders,
                            stats := report.stats.(totalProductos := report.stats.totalProductos + |productos|));
      }
      i := i + 1;
    }
    assert candidates[..i] == candidates;
    report := report.(success := true, stats := report.stats.(totalPedidos := |report.pedidos|));
  }

  // ---------------------------------------------------------------- the run

  /**
   * One run: a failed login aborts with "Login falló"; a fault while loading the listing
   * aborts with its message; otherwise the candidates are aggregated into the report.
   */
  method Run(fecha: string, login: LoginRun, listing: ListingPage, detail: Pedido -> DetailPage)
    returns (outcome: RunOutcome)
    ensures !Verdict(login) ==>
              outcome == Aborted(InitialReport(fecha).(error := Some(LoginFailedMessage)))
    ensures Verdict(login) && listing.ListingFault? ==>
              outcome == Aborted(InitialReport(fecha).(error := Some(listing.message)))
    ensures Verdict(login) && listing.ListingLoaded? ==>
              outcome.Finished? && outcome.report.success && outcome.report.error == None
              && outcome.report.fecha == fecha
              && outcome.report.pedidos == SuccessfulOrders(Candidates(listing.table, fecha), detail)
              && outcome.report.stats == Stats(|outcome.report.pedidos|, ProductCount(outcome.report.pedidos))
    ensures outcome.Aborted? ==> !outcome.report.success && outcome.report.error.Some?
    ensures ExitCode(outcome) == 0 <==> Verdict(login) && listing.ListingLoaded?
  {
    var result := InitialReport(fecha);
    if !Verdict(login) {
      return Aborted(result.(error := Some(LoginFailedMessage)));
    }
    match listing
    case ListingFault(message) =>
      outcome := Aborted(result.(error := Some(message)));
    case ListingLoaded(table) =>
      var pedidos := GetPedidos(table, fecha);
      result := Aggregate(fecha, pedidos, detail);
      outcome := Finished(result);
  }
}

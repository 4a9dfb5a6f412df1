/**
 * The Listing Retriever's pure part: turning the rows of the order table into
 * candidate records, reordering their dates and keeping those of the target date.
 * Cell texts arrive already trimmed; an anchor's `href` is always a string.
 */
module Listing {
  import opened Wrappers
  import opened Text

  /** The first `<a>` of a cell: its `href` attribute and its trimmed text. */
  datatype Anchor = Anchor(href: string, text: string)

  /** One `<td>`: its trimmed text and the first anchor inside it, if any. */
  datatype ListingCell = ListingCell(text: string, anchor: Option<Anchor>)

  /**
   * A candidate order. `fechaFormatted` is the key the date filter adds to the
   * records it keeps; freshly parsed records do not have it yet.
   */
  datatype Pedido = Pedido(id: string, numero: string, fecha: string, href: string,
                           fechaFormatted: Option<string>)

  const PedidoPath: string := "/pedido/"

  // ---------------------------------------------------------------- the id pattern

  /** The length of the longest run of word characters at the end of `s`. */
  function WordRunLength(s: string): (n: nat)
    ensures n <= |s|
    ensures forall k :: |s| - n <= k < |s| ==> IsWordChar(s[k])
    ensures n < |s| ==> !IsWordChar(s[|s| - n - 1])
  {
    if s == [] || !IsWordChar(s[|s| - 1]) then 0
    else
      var init := s[..|s| - 1];
      assert forall k :: 0 <= k < |init| ==> init[k] == s[k];
      WordRunLength(init) + 1
  }

  /** `href` ends with `/pedido/` followed by the non-empty run of word characters `id`. */
  predicate EndsWithPedidoId(href: string, id: string) {
    id != [] && AllWord(id) && |id| + |PedidoPath| <= |href|
    && href[|href| - |id| - |PedidoPath|..] == PedidoPath + id
  }

  /**
   * The first group of `/\/pedido\/(\w+)$/` matched against `href`, or nothing when the
   * pattern does not match: the run of word characters ending the href, when it is
   * non-empty and preceded by `/pedido/`.
   */
  function ExtractId(href: string): Option<string> {
    var n := WordRunLength(href);
    var k := |href| - n;
    if n > 0 && k >= |PedidoPath| && href[k - |PedidoPath|..k] == PedidoPath then Some(href[k..])
    else None
  }

  /**
   * `ExtractId` is the pattern: what it returns is an id the href ends with after
   * `/pedido/`, and whenever the href ends that way for some id, that id is returned;
   * so the match, when there is one, is unique.
   */
  lemma ExtractIdMatchesPattern(href: string)
    ensures ExtractId(href).Some? ==> EndsWithPedidoId(href, ExtractId(href).value)
    ensures forall id :: EndsWithPedidoId(href, id) ==> ExtractId(href) == Some(id)
  {
    var n := WordRunLength(href);
    var k := |href| - n;
    if n > 0 && k >= |PedidoPath| && href[k - |PedidoPath|..k] == PedidoPath {
      var id := href[k..];
      assert href[k - |PedidoPath|..] == href[k - |PedidoPath|..k] + id;
      assert AllWord(id) by {
        forall i | 0 <= i < |id| ensures IsWordChar(id[i]) {
          assert id[i] == href[k + i];
        }
      }
      assert EndsWithPedidoId(href, id);
    }
    forall id | EndsWithPedidoId(href, id) ensures ExtractId(href) == Some(id) {
      PedidoIdIsWordRun(href, id);
    }
  }

  /** The run of word characters at the end of `s` is exactly `n` long when it stops there. */
  lemma {:induction false} WordRunIs(s: string, n: nat)
    requires n <= |s|
    requires forall k :: |s| - n <= k < |s| ==> IsWordChar(s[k])
    requires n < |s| ==> !IsWordChar(s[|s| - n - 1])
    ensures WordRunLength(s) == n
  {
    if n > 0 {
      var init := s[..|s| - 1];
      assert IsWordChar(s[|s| - 1]);
      assert forall k :: 0 <= k < |init| ==> init[k] == s[k];
      WordRunIs(init, n - 1);
    }
  }

  /** Reading the two pieces of a suffix `pre + id` back out of `s`. */
  lemma SuffixPieces(s: string, pre: string, id: string)
    requires |pre| + |id| <= |s| && s[|s| - |id| - |pre|..] == pre + id
    ensures s[|s| - |id| - |pre|..|s| - |id|] == pre
    ensures s[|s| - |id|..] == id
    ensures pre != [] ==> s[|s| - |id| - 1] == pre[|pre| - 1]
  {
    var tail := s[|s| - |id| - |pre|..];
    assert s[|s| - |id| - |pre|..|s| - |id|] == tail[..|pre|];
    assert s[|s| - |id|..] == tail[|pre|..];
    if pre != [] {
      assert s[|s| - |id| - 1] == tail[|pre| - 1];
    }
  }

  lemma PedidoIdIsWordRun(href: string, id: string)
    requires EndsWithPedidoId(href, id)
    ensures WordRunLength(href) == |id| && href[|href| - |id|..] == id
    ensures href[|href| - |id| - |PedidoPath|..|href| - |id|] == PedidoPath
  {
    SuffixPieces(href, PedidoPath, id);
    assert PedidoPath[|PedidoPath| - 1] == '/';
    forall k | |href| - |id| <= k < |href| ensures IsWordChar(href[k]) {
      assert href[k] == id[k - (|href| - |id|)];
    }
    WordRunIs(href, |id|);
  }

  // ---------------------------------------------------------------- rows

  /**
   * One listing row: skipped when it has fewer than two cells, when its first cell
   * holds no anchor, or when the anchor's link does not end in `/pedido/<id>`.
   */
  function ParseRow(cells: seq<ListingCell>): (r: Option<Pedido>)
    ensures r.Some? <==>
              |cells| >= 2 && cells[0].anchor.Some?
              && exists id :: EndsWithPedidoId(cells[0].anchor.value.href, id)
    ensures r.Some? ==>
              var a := cells[0].anchor.value;
              EndsWithPedidoId(a.href, r.value.id)
              && r.value == Pedido(r.value.id, a.text, cells[1].text, a.href, None)
  {
    if |cells| < 2 then None
    else match cells[0].anchor
      case None => None
      case Some(a) =>
        ExtractIdMatchesPattern(a.href);
        match ExtractId(a.href)
        case None => None
        case Some(id) => Some(Pedido(id, a.text, cells[1].text, a.href, None))
  }

  /** The records the table yields, in row order. */
  function ParsedRecords(rows: seq<seq<ListingCell>>): (ps: seq<Pedido>)
    ensures |ps| <= |rows|
    ensures forall p :: p in ps ==>
              EndsWithPedidoId(p.href, p.id) && p.fechaFormatted == None
              && exists i :: 0 <= i < |rows| && ParseRow(rows[i]) == Some(p)
  {
    if rows == [] then []
    else
      var init := ParsedRecords(rows[..|rows| - 1]);
      var last := ParseRow(rows[|rows| - 1]);
      assert forall i :: 0 <= i < |rows| - 1 ==> rows[..|rows| - 1][i] == rows[i];
      match last
      case None => init
      case Some(p) => init + [p]
  }

  /** Parsing respects row order: the records of two blocks of rows, one after the other. */
  lemma {:induction false} ParsedRecordsAppend(a: seq<seq<ListingCell>>, b: seq<seq<ListingCell>>)
    ensures ParsedRecords(a + b) == ParsedRecords(a) + ParsedRecords(b)
    decreases |b|
  {
    if b == [] {
      assert a + b == a;
    } else {
      var b' := b[..|b| - 1];
      assert (a + b)[..|a + b| - 1] == a + b';
      assert (a + b)[|a + b| - 1] == b[|b| - 1];
      ParsedRecordsAppend(a, b');
    }
  }

  /** A record comes out of the table exactly when some row parses to it. */
  lemma {:induction false} ParsedRecordsMembership(rows: seq<seq<ListingCell>>, p: Pedido)
    ensures p in ParsedRecords(rows) <==> exists i :: 0 <= i < |rows| && ParseRow(rows[i]) == Some(p)
    decreases |rows|
  {
    if rows != [] {
      var init := rows[..|rows| - 1];
      ParsedRecordsMembership(init, p);
      if exists i :: 0 <= i < |rows| && ParseRow(rows[i]) == Some(p) {
        var i :| 0 <= i < |rows| && ParseRow(rows[i]) == Some(p);
        if i < |rows| - 1 {
          assert init[i] == rows[i];
        }
      }
    }
  }

  /**
   * The row loop: each row is parsed in turn and the records that have an id are
   * pushed onto the result.
   */
  method ParseListing(rows: seq<seq<ListingCell>>) returns (pedidos: seq<Pedido>)
    ensures pedidos == ParsedRecords(rows)
  {
    pedidos := [];
    var i := 0;
    while i < |rows|
      invariant 0 <= i <= |rows|
      invariant pedidos == ParsedRecords(rows[..i])
    {
      var cells := rows[i];
      assert rows[..i + 1][..i] == rows[..i];
      if |cells| >= 2 {
        var link := cells[0].anchor;
        if link.Some? {
          var href := link.value.href;
          var numero := link.value.text;
          var fecha := cells[1].text;
          var id := ExtractId(href);
          if id.Some? {
            pedidos := pedidos + [Pedido(id.value, numero, fecha, href, None)];
          }
        }
      }
      i := i + 1;
    }
    assert rows[..i] == rows;
  }

  // ---------------------------------------------------------------- dates

  /**
   * The date reorder: split on `/`; exactly three parts `d/m/y` become `y-m-d`, with no
   * check that they are numbers; any other number of parts gives nothing.
   */
  function FormatDate(raw: string): (r: Option<string>)
    ensures r.Some? <==> Count(raw, '/') == 2
  {
    var parts := Split(raw, '/');
    if |parts| == 3 then Some(parts[2] + "-" + parts[1] + "-" + parts[0]) else None
  }

  /** A date `d/m/y` with slash-free pieces is reordered to `y-m-d`, pieces unchanged. */
  lemma FormatDateRoundTrip(d: string, m: string, y: string)
    requires '/' !in d && '/' !in m && '/' !in y
    ensures FormatDate(d + "/" + m + "/" + y) == Some(y + "-" + m + "-" + d)
  {
    var parts := [d, m, y];
    assert Join(parts, '/') == d + "/" + m + "/" + y by {
      assert Join(parts[1..], '/') == m + "/" + y;
    }
    SplitJoin(parts, '/');
  }

  /** Any date the reorder accepts is of the form `d/m/y` and becomes `y-m-d`. */
  lemma FormatDateSound(raw: string)
    requires FormatDate(raw).Some?
    ensures exists d, m, y :: '/' !in d && '/' !in m && '/' !in y
              && raw == d + "/" + m + "/" + y && FormatDate(raw) == Some(y + "-" + m + "-" + d)
  {
    var p := Split(raw, '/');
    JoinSplit(raw, '/');
    assert Join(p, '/') == p[0] + "/" + p[1] + "/" + p[2] by {
      assert Join(p[1..], '/') == p[1] + "/" + p[2] by {
        assert p[1..][1..] == [p[2]];
      }
    }
    assert '/' !in p[0] && '/' !in p[1] && '/' !in p[2] by {
      assert forall i :: 0 <= i < 3 ==> '/' !in p[i];
    }
  }

  // ---------------------------------------------------------------- date filter

  /** The records whose reordered date is `fecha`, in order, each stamped with it. */
  function Filtered(pedidos: seq<Pedido>, fecha: string): (ps: seq<Pedido>)
    ensures |ps| <= |pedidos|
    ensures forall p :: p in ps ==> p.fechaFormatted == Some(fecha) && FormatDate(p.fecha) == Some(fecha)
  {
    if pedidos == [] then []
    else
      var init := Filtered(pedidos[..|pedidos| - 1], fecha);
      var p := pedidos[|pedidos| - 1];
      if FormatDate(p.fecha) == Some(fecha) then init + [p.(fechaFormatted := Some(fecha))]
      else init
  }

  /** A record is returned exactly when some input record with that date, stamped, is it. */
  lemma {:induction false} FilteredMembership(pedidos: seq<Pedido>, fecha: string, q: Pedido)
    ensures q in Filtered(pedidos, fecha) <==>
              exists p :: p in pedidos && FormatDate(p.fecha) == Some(fecha)
                          && q == p.(fechaFormatted := Some(fecha))
    decreases |pedidos|
  {
    if pedidos != [] {
      var init := pedidos[..|pedidos| - 1];
      var last := pedidos[|pedidos| - 1];
      FilteredMembership(init, fecha, q);
      assert pedidos == init + [last];
      assert forall p :: p in pedidos <==> p in init || p == last;
    }
  }

  /** Filtering respects order: two blocks of records filter block by block. */
  lemma {:induction false} FilteredAppend(a: seq<Pedido>, b: seq<Pedido>, fecha: string)
    ensures Filtered(a + b, fecha) == Filtered(a, fecha) + Filtered(b, fecha)
    decreases |b|
  {
    if b == [] {
      assert a + b == a;
    } else {
      var b' := b[..|b| - 1];
      assert (a + b)[..|a + b| - 1] == a + b';
      assert (a + b)[|a + b| - 1] == b[|b| - 1];
      FilteredAppend(a, b', fecha);
    }
  }

  /**
   * The date filter loop: each record's raw date is split; a three-part date is
   * reordered and, when it equals the target, the stamped record is appended.
   */
  method FilterByDate(pedidos: seq<Pedido>, fecha: string) returns (filtrados: seq<Pedido>)
    ensures filtrados == Filtered(pedidos, fecha)
  {
    filtrados := [];
    var i := 0;
    while i < |pedidos|
      invariant 0 <= i <= |pedidos|
      invariant filtrados == Filtered(pedidos[..i], fecha)
    {
      var p := pedidos[i];
      assert pedidos[..i + 1][..i] == pedidos[..i];
      var parts := Split(p.fecha, '/');
      if |parts| == 3 {
        var formatted := parts[2] + "-" + parts[1] + "-" + parts[0];
        p := p.(fechaFormatted := Some(formatted));
        if formatted == fecha {
          filtrados := filtrados + [p];
        }
      }
      i := i + 1;
    }
    assert pedidos[..i] == pedidos;
  }
}

/**
 * The Detail Extractor's row classifier. Every row of an order's detail table is
 * scanned over its first six cells; three independent rules each claim one field at
 * most once: the reference code (first two cells only), the quantity and the
 * description. A row becomes a line item only when a reference code was claimed.
 * Cell texts arrive already trimmed.
 */
module Detail {
  import opened Wrappers
  import opened Text

  /** A line item of an order. */
  datatype Producto = Producto(referencia: string, denominacion: string, cantidad: nat)

  const CellWindow: nat := 6        // cells examined per row
  const RefCells: nat := 2          // cells that may hold the reference code
  const MinRefLength: nat := 3      // reference codes are longer than 2
  const QuantityLimit: nat := 10000 // quantities are below this
  const MinDescLength: nat := 21    // descriptions are longer than 20
  const MaxDescLength: nat := 100   // and cut to this many characters

  /** `/^[A-Z0-9\-]+$/` together with the length test. */
  predicate IsRefCode(t: string) {
    |t| >= MinRefLength
    && forall i :: 0 <= i < |t| ==> 'A' <= t[i] <= 'Z' || '0' <= t[i] <= '9' || t[i] == '-'
  }

  /** The source's quantity test: all digits and a value in 1..9999. */
  predicate IsQuantityCell(t: string) {
    IsDigits(t) && 0 < DigitsValue(t) < QuantityLimit
  }

  /**
   * A cell that actually settles the quantity. Writing 1 over the default 1 leaves
   * the field open (the guard is `cantidad === 1`), so only values 2..9999 claim it.
   */
  predicate ClaimsQuantity(t: string) {
    IsQuantityCell(t) && DigitsValue(t) != 1
  }

  predicate IsDescription(t: string) {
    |t| >= MinDescLength
  }

  /** `substring(0, 100)`. */
  function Truncate(t: string): string {
    if |t| <= MaxDescLength then t else t[..MaxDescLength]
  }

  /** The cells the classifier looks at. */
  function Window(cells: seq<string>): (w: seq<string>)
    ensures |w| == if |cells| <= CellWindow then |cells| else CellWindow
    ensures w == cells[..|w|]
  {
    if |cells| <= CellWindow then cells else cells[..CellWindow]
  }

  // ---------------------------------------------------------------- the three rules

  /** The reference code: the first of the first two cells that has its shape. */
  function FirstRef(cells: seq<string>): (r: Option<string>)
    requires |cells| >= RefCells
    ensures r.Some? ==> IsRefCode(r.value)
  {
    if IsRefCode(cells[0]) then Some(cells[0])
    else if IsRefCode(cells[1]) then Some(cells[1])
    else None
  }

  /** The quantity: the value of the first cell that claims it, 1 when none does. */
  function FirstQuantity(cells: seq<string>): (q: nat)
    ensures 1 <= q < QuantityLimit
  {
    if cells == [] then 1
    else if ClaimsQuantity(cells[0]) then DigitsValue(cells[0])
    else FirstQuantity(cells[1..])
  }

  /** The description: the first long enough cell, cut to 100 characters; "" when none. */
  function FirstDescription(cells: seq<string>): (d: string)
    ensures d == [] || MinDescLength <= |d| <= MaxDescLength
  {
    if cells == [] then ""
    else if IsDescription(cells[0]) then Truncate(cells[0])
    else FirstDescription(cells[1..])
  }

  /** The line item a row yields, if any. */
  function RowItem(cells: seq<string>): (r: Option<Producto>)
    ensures r.Some? <==> |cells| >= RefCells && (IsRefCode(cells[0]) || IsRefCode(cells[1]))
    ensures r.Some? ==>
              r.value.referencia == (if IsRefCode(cells[0]) then cells[0] else cells[1])
              && IsRefCode(r.value.referencia)
              && r.value.cantidad == FirstQuantity(Window(cells))
              && r.value.denominacion == FirstDescription(Window(cells))
              && 1 <= r.value.cantidad < QuantityLimit
              && (r.value.denominacion == [] || MinDescLength <= |r.value.denominacion| <= MaxDescLength)
  {
    if |cells| < RefCells then None
    else
      match FirstRef(cells)
      case None => None
      case Some(ref) =>
        var w := Window(cells);
        Some(Producto(ref, FirstDescription(w), FirstQuantity(w)))
  }

  // ---------------------------------------------------------------- the rules, one cell at a time

  /** The quantity after one more cell: kept once claimed, else claimed by the new cell. */
  lemma {:induction false} FirstQuantitySnoc(cells: seq<string>, c: string)
    ensures FirstQuantity(cells + [c]) ==
              if FirstQuantity(cells) != 1 then FirstQuantity(cells)
              else if ClaimsQuantity(c) then DigitsValue(c)
              else 1
  {
    if cells != [] {
      assert (cells + [c])[1..] == cells[1..] + [c];
      FirstQuantitySnoc(cells[1..], c);
    }
  }

  /** The description after one more cell: kept once claimed, else claimed by the new cell. */
  lemma {:induction false} FirstDescriptionSnoc(cells: seq<string>, c: string)
    ensures FirstDescription(cells + [c]) ==
              if FirstDescription(cells) != [] then FirstDescription(cells)
              else if IsDescription(c) then Truncate(c)
              else []
  {
    if cells != [] {
      assert (cells + [c])[1..] == cells[1..] + [c];
      FirstDescriptionSnoc(cells[1..], c);
    }
  }

  /**
   * The cell loop of one row, with the source's guards: the reference code only from
   * cells 0 and 1 while still empty, the quantity while it is still 1, the description
   * while still empty.
   */
  method ClassifyRow(cells: seq<string>) returns (item: Option<Producto>)
    ensures item == RowItem(cells)
  {
    if |cells| < RefCells {
      return None;
    }
    var referencia := "";
    var cantidad := 1;
    var denominacion := "";
    var n := if |cells| < CellWindow then |cells| else CellWindow;
    var i := 0;
    while i < n
      invariant 0 <= i <= n
      invariant referencia ==
                  if i >= 1 && IsRefCode(cells[0]) then cells[0]
                  else if i >= 2 && IsRefCode(cells[1]) then cells[1]
                  else ""
      invariant cantidad == FirstQuantity(cells[..i])
      invariant denominacion == FirstDescription(cells[..i])
    {
      var texto := cells[i];
      assert cells[..i + 1] == cells[..i] + [texto];
      FirstQuantitySnoc(cells[..i], texto);
      FirstDescriptionSnoc(cells[..i], texto);
      if IsRefCode(texto) && i < RefCells && referencia == "" {
        referencia := texto;
      }
      if IsQuantityCell(texto) && cantidad == 1 {
        cantidad := DigitsValue(texto);
      }
      if IsDescription(texto) && denominacion == "" {
        denominacion := Truncate(texto);
      }
      i := i + 1;
    }
    assert cells[..i] == Window(cells);
    if referencia != "" {
      item := Some(Producto(referencia, denominacion, cantidad));
    } else {
      item := None;
    }
  }

  // ---------------------------------------------------------------- properties of the rules

  /** The quantity is the value of the first claiming cell; 1 exactly when no cell claims. */
  lemma {:induction false} QuantityIsFirstClaim(cells: seq<string>)
    ensures FirstQuantity(cells) == 1 <==> forall j :: 0 <= j < |cells| ==> !ClaimsQuantity(cells[j])
    ensures forall i :: 0 <= i < |cells| && ClaimsQuantity(cells[i])
                        && (forall j :: 0 <= j < i ==> !ClaimsQuantity(cells[j]))
                        ==> FirstQuantity(cells) == DigitsValue(cells[i])
  {
    if cells != [] {
      QuantityIsFirstClaim(cells[1..]);
      assert forall j :: 1 <= j < |cells| ==> cells[j] == cells[1..][j - 1];
      if !ClaimsQuantity(cells[0]) {
        forall i | 1 <= i < |cells| && ClaimsQuantity(cells[i])
                   && (forall j :: 0 <= j < i ==> !ClaimsQuantity(cells[j]))
          ensures FirstQuantity(cells) == DigitsValue(cells[i])
        {
          assert cells[1..][i - 1] == cells[i];
          assert forall j :: 0 <= j < i - 1 ==> !ClaimsQuantity(cells[1..][j]) by {
            assert forall j :: 0 <= j < i - 1 ==> cells[1..][j] == cells[j + 1];
          }
        }
      }
    }
  }

  /** The description is the first long cell, cut; "" exactly when no cell is long. */
  lemma {:induction false} DescriptionIsFirstLong(cells: seq<string>)
    ensures FirstDescription(cells) == [] <==> forall j :: 0 <= j < |cells| ==> !IsDescription(cells[j])
    ensures forall i :: 0 <= i < |cells| && IsDescription(cells[i])
                        && (forall j :: 0 <= j < i ==> !IsDescription(cells[j]))
                        ==> FirstDescription(cells) == Truncate(cells[i])
  {
    if cells != [] {
      DescriptionIsFirstLong(cells[1..]);
      assert forall j :: 1 <= j < |cells| ==> cells[j] == cells[1..][j - 1];
      if !IsDescription(cells[0]) {
        forall i | 1 <= i < |cells| && IsDescription(cells[i])
                   && (forall j :: 0 <= j < i ==> !IsDescription(cells[j]))
          ensures FirstDescription(cells) == Truncate(cells[i])
        {
          assert cells[1..][i - 1] == cells[i];
          assert forall j :: 0 <= j < i - 1 ==> !IsDescription(cells[1..][j]) by {
            assert forall j :: 0 <= j < i - 1 ==> cells[1..][j] == cells[j + 1];
          }
        }
      }
    }
  }

  /** Cells after the sixth never influence the line item. */
  lemma WindowOnly(cells: seq<string>, rest: seq<string>)
    requires |cells| == CellWindow
    ensures RowItem(cells + rest) == RowItem(cells)
  {
    assert Window(cells + rest) == cells;
    assert (cells + rest)[0] == cells[0] && (cells + rest)[1] == cells[1];
  }

  /** A cell reading `1` right after the code does not stop a later cell from setting the quantity. */
  lemma LeadingOneDoesNotBlock(code: string, count: string)
    requires IsRefCode(code) && !ClaimsQuantity(code)
    requires ClaimsQuantity(count)
    ensures RowItem([code, "1", count]).Some?
    ensures RowItem([code, "1", count]).value.cantidad == DigitsValue(count)
  {
    var cells := [code, "1", count];
    assert DigitsValue("1") == 1 by {
      assert "1"[..0] == [];
    }
    assert !ClaimsQuantity(cells[1]);
    assert Window(cells) == cells;
    assert cells[1..][1..] == [count];
    assert FirstQuantity(cells[1..][1..]) == DigitsValue(count);
    assert FirstQuantity(cells[1..]) == DigitsValue(count);
  }

  /**
   * A row laid out as code, empty cell, long text, count (the layout of a typical
   * detail line) gives the code, the cut text and the count.
   */
  lemma CodeDescriptionCountRow(code: string, text: string, count: string)
    requires IsRefCode(code) && !ClaimsQuantity(code) && !IsDescription(code)
    requires IsDescription(text) && !ClaimsQuantity(text)
    requires ClaimsQuantity(count)
    ensures RowItem([code, "", text, count]) == Some(Producto(code, Truncate(text), DigitsValue(count)))
  {
    var cells := [code, "", text, count];
    assert Window(cells) == cells;
    assert cells[1..][1..] == [text, count];
    assert cells[1..][1..][1..] == [count];
    assert !ClaimsQuantity(cells[1]) && !IsDescription(cells[1]);
    var q := DigitsValue(count);
    assert FirstQuantity(cells[1..][1..][1..]) == q;
    assert FirstQuantity(cells[1..][1..]) == q;
    assert FirstQuantity(cells[1..]) == q;
    assert FirstQuantity(cells) == q;
    assert FirstDescription(cells[1..][1..]) == Truncate(text);
    assert FirstDescription(cells[1..]) == Truncate(text);
    assert FirstDescription(cells) == Truncate(text);
    assert FirstRef(cells) == Some(code);
  }

  // ---------------------------------------------------------------- the table

  /** The line items of a detail table, in row order. */
  function Products(rows: seq<seq<string>>): (ps: seq<Producto>)
    ensures |ps| <= |rows|
    ensures forall p :: p in ps ==>
              IsRefCode(p.referencia) && 1 <= p.cantidad < QuantityLimit
              && (p.denominacion == [] || MinDescLength <= |p.denominacion| <= MaxDescLength)
  {
    if rows == [] then []
    else
      var init := Products(rows[..|rows| - 1]);
      match RowItem(rows[|rows| - 1])
      case None => init
      case Some(p) => init + [p]
  }

  /** Every item of the table was yielded by one of its rows. */
  lemma {:induction false} ProductFromRow(rows: seq<seq<string>>, p: Producto)
    requires p in Products(rows)
    ensures exists i :: 0 <= i < |rows| && RowItem(rows[i]) == Some(p)
    decreases |rows|
  {
    var init := rows[..|rows| - 1];
    if p in Products(init) {
      ProductFromRow(init, p);
      var i :| 0 <= i < |init| && RowItem(init[i]) == Some(p);
      assert rows[i] == init[i];
    } else {
      assert RowItem(rows[|rows| - 1]) == Some(p);
    }
  }

  /** The item a row yields is kept in the table. */
  lemma {:induction false} RowToProduct(rows: seq<seq<string>>, i: nat, p: Producto)
    requires i < |rows| && RowItem(rows[i]) == Some(p)
    ensures p in Products(rows)
    decreases |rows|
  {
    if i < |rows| - 1 {
      var init := rows[..|rows| - 1];
      assert init[i] == rows[i];
      RowToProduct(init, i, p);
    }
  }

  /** An item comes out of the table exactly when some row yields it. */
  lemma ProductsMembership(rows: seq<seq<string>>, p: Producto)
    ensures p in Products(rows) <==> exists i :: 0 <= i < |rows| && RowItem(rows[i]) == Some(p)
  {
    if p in Products(rows) {
      ProductFromRow(rows, p);
    }
    if exists i :: 0 <= i < |rows| && RowItem(rows[i]) == Some(p) {
      var i :| 0 <= i < |rows| && RowItem(rows[i]) == Some(p);
      RowToProduct(rows, i, p);
    }
  }

  /** Items keep row order: two blocks of rows give the first block's items, then the second's. */
  lemma {:induction false} ProductsAppend(a: seq<seq<string>>, b: seq<seq<string>>)
    ensures Products(a + b) == Products(a) + Products(b)
    decreases |b|
  {
    if b == [] {
      assert a + b == a;
    } else {
      var b' := b[..|b| - 1];
      assert (a + b)[..|a + b| - 1] == a + b';
      assert (a + b)[|a + b| - 1] == b[|b| - 1];
      ProductsAppend(a, b');
    }
  }

  /** Each row contributes its own item, or nothing: one row's table is that row's item. */
  lemma SingleRowProducts(row: seq<string>)
    ensures Products([row]) == match RowItem(row) case None => [] case Some(p) => [p]
  {
    assert [row][..0] == [];
  }

  /** The row loop: each row is classified and its item, if any, pushed. */
  method ExtractProducts(rows: seq<seq<string>>) returns (productos: seq<Producto>)
    ensures productos == Products(rows)
  {
    productos := [];
    var i := 0;
    while i < |rows|
      invariant 0 <= i <= |rows|
      invariant productos == Products(rows[..i])
    {
      assert rows[..i + 1][..i] == rows[..i];
      var item := ClassifyRow(rows[i]);
      if item.Some? {
        productos := productos + [item.value];
      }
      i := i + 1;
    }
    assert rows[..i] == rows;
  }

  /** A table without a single row that has a reference code yields no items at all. */
  lemma {:induction false} NoReferenceNoProducts(rows: seq<seq<string>>)
    requires forall k :: 0 <= k < |rows| ==> RowItem(rows[k]).None?
    ensures Products(rows) == []
  {
    if rows != [] {
      NoReferenceNoProducts(rows[..|rows| - 1]);
    }
  }
}

/** `export_to_csv`: every row is repriced in place, the list is sorted,
    and the column list is computed from the keys of all rows. */
module Export {
  import opened Wrappers
  import opened Strings
  import opened Prices
  import opened Records
  import opened RowOrder
  import Catalog

  // ---------------------------------------------------------------------
  // Repricing one row

  /** The three repricing parameters of `export_to_csv`. */
  datatype Coefficients = Coefficients(marge: real, frais: real, tva: real)

  /** `MARGE_BRUTE_DEFAULT`, `FRAIS_FIXES_MO_DEFAULT`, `TVA_COEFFICIENT_DEFAULT`. */
  const Defaults: Coefficients := Coefficients(1.60, 20.0, 1.20)

  /** `math.ceil`: the least integer not below `x`. */
  function Ceil(x: real): (n: int)
    ensures (n - 1) as real < x <= n as real
  {
    if x.Floor as real == x then x.Floor else x.Floor + 1
  }

  /** The price after margin, labour and VAT, before rounding. */
  function Cost(p: real, c: Coefficients): real {
    (p * c.marge + c.frais) * c.tva
  }

  /** The client price: margin, then labour, then VAT, rounded up to a
      whole number of euros. It covers the cost once VAT is applied, and is
      less than one euro above it. */
  function ClientPrice(p: real, c: Coefficients): (n: int)
    ensures Cost(p, c) <= n as real < Cost(p, c) + 1.0
  {
    Ceil(Cost(p, c))
  }

  /** `f"{n:.2f}".replace('.', ',') + " €"` for an integer `n`. */
  function FormatTtc(n: int): string {
    IntToString(n) + ",00 €"
  }

  /** The row carries a numeric `price_float`; otherwise reading it raises
      (`KeyError` when it is missing, `TypeError` when it is not a number). */
  predicate HasPrice(row: Row) {
    PriceFloat in row && row[PriceFloat].Number?
  }

  /** The four columns the repricing writes. */
  const PriceColumns: set<string> :=
    {PrixFournisseurHt, MargeBruteHt, PrixIntermediaireHt, PrixClientTtc}

  /** The body of the repricing loop for one row. */
  function Reprice(row: Row, c: Coefficients): (r: Row)
    requires HasPrice(row)
    ensures PriceFloat !in r
    ensures forall k :: k in r <==> (k in row && k != PriceFloat) || k in PriceColumns
    ensures forall k :: k in row && k != PriceFloat && k !in PriceColumns ==> r[k] == row[k]
  {
    var p := row[PriceFloat].value;
    var marged := p * c.marge;
    var intermediate := marged + c.frais;
    var updated := row[PrixFournisseurHt := Euros(p)]
                      [MargeBruteHt := Euros(marged)]
                      [PrixIntermediaireHt := Euros(intermediate)]
                      [PrixClientTtc := Text(FormatTtc(ClientPrice(p, c)))];
    updated - {PriceFloat}
  }

  /** The four prices written for a supplier price `p`. */
  lemma RepricedValues(row: Row, c: Coefficients)
    requires HasPrice(row)
    ensures var p := row[PriceFloat].value;
            var r := Reprice(row, c);
            && r[PrixFournisseurHt] == Euros(p)
            && r[MargeBruteHt] == Euros(p * c.marge)
            && r[PrixIntermediaireHt] == Euros(p * c.marge + c.frais)
            && r[PrixClientTtc] == Text(FormatTtc(ClientPrice(p, c)))
  {
  }

  /** The client price column of a repriced row reads back, through
      `clean_price`, as the client price. */
  lemma RepricedTtcReadsBack(row: Row, c: Coefficients)
    requires HasPrice(row)
    ensures Reprice(row, c)[PrixClientTtc].Text?
    ensures CleanPrice(Reprice(row, c)[PrixClientTtc].s) == ClientPrice(row[PriceFloat].value, c) as real
  {
    RepricedValues(row, c);
    TtcReadsBack(ClientPrice(row[PriceFloat].value, c));
  }

  /** The TTC text reads back, through `clean_price`, as the integer it
      was formatted from, negative or not. */
  lemma TtcReadsBack(n: int)
    ensures CleanPrice(FormatTtc(n)) == n as real
  {
    if n >= 0 {
      var units := NatToString(n);
      assert FormatTtc(n) == units + "," + "00" + " €";
      CleanPriceZeroCents(units);
      ZeroCents(units);
      NatToStringRoundTrip(n);
    } else {
      var units := NatToString(-n);
      assert FormatTtc(n) == "-" + units + "," + "00" + " €";
      CleanPriceNegativeDecimalComma(units, "00");
      ZeroCents(units);
      NatToStringRoundTrip(-n);
    }
  }

  lemma CleanPriceZeroCents(units: string)
    requires |units| > 0 && AllDigits(units)
    ensures CleanPrice(units + "," + "00" + " €") == Decimal(units, "00")
  {
    CleanPriceDecimalComma(units, "00");
  }

  lemma ZeroCents(units: string)
    requires AllDigits(units)
    ensures Decimal(units, "00") == DigitsValue(units) as real
  {
    assert DigitsValue("00") == 0 by {
      assert "00"[..1] == "0";
      assert "0"[..0] == "";
    }
  }

  /** With non-negative margin and VAT, a dearer part never gets a lower
      client price. */
  lemma ClientPriceMonotonic(p: real, q: real, c: Coefficients)
    requires p <= q && c.marge >= 0.0 && c.tva >= 0.0
    ensures ClientPrice(p, c) <= ClientPrice(q, c)
  {
    CostMonotonic(p, q, c);
    CeilMonotonic(Cost(p, c), Cost(q, c));
  }

  lemma CostMonotonic(p: real, q: real, c: Coefficients)
    requires p <= q && c.marge >= 0.0 && c.tva >= 0.0
    ensures Cost(p, c) <= Cost(q, c)
  {
    ScaleMonotonic(p, q, c.marge);
    ScaleMonotonic(p * c.marge + c.frais, q * c.marge + c.frais, c.tva);
  }

  lemma ScaleMonotonic(x: real, y: real, k: real)
    requires x <= y && k >= 0.0
    ensures x * k <= y * k
  {
  }

  lemma CeilMonotonic(x: real, y: real)
    requires x <= y
    ensures Ceil(x) <= Ceil(y)
  {
  }

  /** With the default parameters a part bought 10 € is sold 44 €
      (10 × 1.60 + 20 = 36, × 1.20 = 43.2, rounded up). */
  lemma DefaultClientPrice()
    ensures ClientPrice(10.0, Defaults) == 44
  {
  }

  /** With the default parameters no part is sold below 24 €: the labour
      with VAT (20 × 1.20), whatever the supplier price. */
  lemma DefaultClientPriceFloor(p: real)
    requires p >= 0.0
    ensures ClientPrice(p, Defaults) >= 24
  {
    CostMonotonic(0.0, p, Defaults);
  }

  // ---------------------------------------------------------------------
  // Repricing the list

  /** Every row of `rows`, repriced. */
  function RepriceAll(rows: seq<Row>, c: Coefficients): (r: seq<Row>)
    requires forall i :: 0 <= i < |rows| ==> HasPrice(rows[i])
    ensures |r| == |rows|
    ensures forall i :: 0 <= i < |rows| ==> r[i] == Reprice(rows[i], c)
  {
    if rows == [] then [] else [Reprice(rows[0], c)] + RepriceAll(rows[1..], c)
  }

  /** The position of the first row without a numeric `price_float`, where
      the repricing loop raises. */
  function FirstUnpriced(rows: seq<Row>): (r: Option<nat>)
    ensures r.None? <==> forall i :: 0 <= i < |rows| ==> HasPrice(rows[i])
    ensures r.Some? ==>
              && r.value < |rows|
              && !HasPrice(rows[r.value])
              && forall i :: 0 <= i < r.value ==> HasPrice(rows[i])
  {
    if rows == [] then None
    else if !HasPrice(rows[0]) then Some(0)
    else match FirstUnpriced(rows[1..])
      case None => None
      case Some(i) => Some(i + 1)
  }

  /** The `for item in data` loop: reprices the rows one after the other,
      in place, and stops at the first row it cannot read the price of,
      leaving that row and the ones after it untouched. */
  method RepriceRows(data: ProductList, c: Coefficients) returns (failedAt: Option<nat>)
    modifies data
    ensures failedAt == FirstUnpriced(old(data.items))
    ensures failedAt.None? ==> data.items == RepriceAll(old(data.items), c)
    ensures failedAt.Some? ==>
              data.items == RepriceAll(old(data.items)[..failedAt.value], c)
                            + old(data.items)[failedAt.value..]
  {
    ghost var original := data.items;
    for i := 0 to |data.items|
      invariant forall j :: 0 <= j < i ==> HasPrice(original[j])
      invariant data.items == RepriceAll(original[..i], c) + original[i..]
    {
      RepricedPrefixAt(original, i, c);
      var item := data.items[i];
      if !HasPrice(item) {
        failedAt := Some(i);
        return;
      }
      RepricedPrefixStep(original, i, c);
      data.items := data.items[i := Reprice(item, c)];
    }
    failedAt := None;
    assert original[..|original|] == original;
  }

  /** Row `i` of a list repriced up to `i` is still the original row. */
  lemma RepricedPrefixAt(rows: seq<Row>, i: nat, c: Coefficients)
    requires i < |rows| && forall j :: 0 <= j < i ==> HasPrice(rows[j])
    ensures (RepriceAll(rows[..i], c) + rows[i..])[i] == rows[i]
  {
  }

  /** Repricing row `i` of a list repriced up to `i` gives the list
      repriced up to `i + 1`. */
  lemma RepricedPrefixStep(rows: seq<Row>, i: nat, c: Coefficients)
    requires i < |rows| && forall j :: 0 <= j <= i ==> HasPrice(rows[j])
    ensures (RepriceAll(rows[..i], c) + rows[i..])[i := Reprice(rows[i], c)]
         == RepriceAll(rows[..i + 1], c) + rows[i + 1..]
  {
    assert rows[i..] == [rows[i]] + rows[i + 1..];
    RepriceAllSnoc(rows, i, c);
    UpdateAtSeam(RepriceAll(rows[..i], c), Reprice(rows[i], c), rows[i], rows[i + 1..]);
  }

  /** Repricing one more row extends the repriced prefix by that row. */
  lemma RepriceAllSnoc(rows: seq<Row>, i: nat, c: Coefficients)
    requires i < |rows| && forall j :: 0 <= j <= i ==> HasPrice(rows[j])
    ensures RepriceAll(rows[..i + 1], c) == RepriceAll(rows[..i], c) + [Reprice(rows[i], c)]
  {
    var longer := RepriceAll(rows[..i + 1], c);
    var shorter := RepriceAll(rows[..i], c);
    forall j | 0 <= j <= i
      ensures longer[j] == (shorter + [Reprice(rows[i], c)])[j]
    {
      assert rows[..i + 1][j] == rows[j];
      if j < i {
        assert rows[..i][j] == rows[j];
      }
    }
  }

  /** Replacing the first element after a prefix. */
  lemma UpdateAtSeam(p: seq<Row>, x: Row, y: Row, rest: seq<Row>)
    ensures (p + ([y] + rest))[|p| := x] == p + [x] + rest
  {
  }

  // ---------------------------------------------------------------------
  // The column list

  /** Every key of every row (`all_keys`). */
  function KeysOf(rows: seq<Row>): (keys: set<string>)
    ensures forall k :: k in keys <==> exists i :: 0 <= i < |rows| && k in rows[i]
  {
    set i, k | 0 <= i < |rows| && k in rows[i] :: k
  }

  /** The `for d in data: all_keys.update(d.keys())` loop. */
  method CollectKeys(rows: seq<Row>) returns (keys: set<string>)
    ensures keys == KeysOf(rows)
  {
    keys := {};
    for i := 0 to |rows|
      invariant keys == KeysOf(rows[..i])
    {
      assert rows[..i + 1] == rows[..i] + [rows[i]];
      keys := keys + rows[i].Keys;
    }
    assert rows[..|rows|] == rows;
  }

  /** Every key of every row is a column, so the CSV writer never meets a
      field it has no column for. */
  lemma RowKeysAreColumns(rows: seq<Row>)
    ensures forall i, k :: 0 <= i < |rows| && k in rows[i] ==> k in Fieldnames(KeysOf(rows))
  {
    FieldnamesOrder(KeysOf(rows));
  }

  /** Rows that came from the scraper have exactly the nine fixed columns
      once repriced, so no extra column is appended. */
  lemma ScrapedRowsHaveFixedColumns(rows: seq<Row>, model: string, c: Coefficients)
    requires forall i :: 0 <= i < |rows| ==> Catalog.ScrapedRow(rows[i], model)
    ensures forall i :: 0 <= i < |rows| ==> HasPrice(rows[i])
    ensures Fieldnames(KeysOf(RepriceAll(rows, c))) == FixedColumns
  {
    var repriced := RepriceAll(rows, c);
    assert forall i :: 0 <= i < |rows| ==> HasPrice(rows[i]);
    var others := OtherKeys(KeysOf(repriced));
    assert SortedStrings(others) == [];
  }

  // ---------------------------------------------------------------------
  // The export

  /** What `export_to_csv` ends with: nothing to export (`return None`
      before any change), an exception out of the repricing loop at a row,
      or the CSV written with these columns. */
  datatype Outcome =
    | NoData
    | Raised(row: nat)
    | Written(fieldnames: seq<string>)

  /** `export_to_csv`: reprices every row in place, sorts the list by
      model and component name, and computes the columns. */
  method ExportToCsv(data: ProductList, c: Coefficients) returns (outcome: Outcome)
    modifies data
    ensures old(data.items) == [] ==> outcome == NoData && data.items == []
    ensures old(data.items) != [] && FirstUnpriced(old(data.items)).Some? ==>
              var i := FirstUnpriced(old(data.items)).value;
              && outcome == Raised(i)
              && data.items == RepriceAll(old(data.items)[..i], c) + old(data.items)[i..]
    ensures old(data.items) != [] && FirstUnpriced(old(data.items)).None? ==>
              && data.items == SortRows(RepriceAll(old(data.items), c))
              && outcome == Written(Fieldnames(KeysOf(data.items)))
  {
    if data.items == [] {
      return NoData;
    }
    var failedAt := RepriceRows(data, c);
    if failedAt.Some? {
      return Raised(failedAt.value);
    }
    data.items := SortRows(data.items);
    var allKeys := CollectKeys(data.items);
    outcome := Written(Fieldnames(allKeys));
  }
}

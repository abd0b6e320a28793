/** The product rows the scraper produces and the exporter rewrites: a row
    is a Python dict from column name to value, and the caller's product
    list is a list the scraper extends and the exporter sorts in place. */
module Records {

  /** A value stored under a column of a row. */
  datatype Cell =
    | Text(s: string)
      /** A Python `float`. */
    | Number(value: real)
      /** A price written with two decimals, a decimal comma and `" €"`;
          only the amount is kept, not its spelling. */
    | Euros(amount: real)

  /** A product row (a `dict` keyed by column name). */
  type Row = map<string, Cell>

  // Columns written by the scraper.
  const MarqueModele: string := "marque_modele"
  const NomComposant: string := "nom_composant"
  const Reference: string := "reference"
  const PriceFloat: string := "price_float"
  const PriceRaw: string := "price_raw"
  const Link: string := "link"

  // Columns written by the repricing.
  const PrixFournisseurHt: string := "Prix Fournisseur HT"
  const MargeBruteHt: string := "Marge Brute HT"
  const PrixIntermediaireHt: string := "Prix Intermédiaire + M.O. HT"
  const PrixClientTtc: string := "Prix Client TTC"

  /** The caller-owned `List[Dict]` that the scraper appends to and the
      exporter reprices and sorts in place. */
  class ProductList {
    var items: seq<Row>

    constructor()
      ensures items == []
    {
      items := [];
    }

    /** `list.extend`. */
    method Extend(rows: seq<Row>)
      modifies this
      ensures items == old(items) + rows
    {
      items := items + rows;
    }
  }
}

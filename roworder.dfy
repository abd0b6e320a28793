/** The ordering half of `export_to_csv`: rows are sorted, stably, by their
    lower-cased model and component names, and the CSV columns are nine
    fixed names followed by every other key in ascending order. */
module RowOrder {
  import opened Strings
  import opened Records

  // ---------------------------------------------------------------------
  // The sort key

  /** `str(row.get(key, ''))` for a text cell or a missing key. */
  function KeyText(row: Row, key: string): string {
    if key in row && row[key].Text? then row[key].s else ""
  }

  /** `(str(x.get('marque_modele', '')).lower(), str(x.get('nom_composant', '')).lower())`. */
  function SortKey(row: Row): (string, string) {
    (Lower(KeyText(row, MarqueModele)), Lower(KeyText(row, NomComposant)))
  }

  /** Python's `<` on pairs: by the first component, then by the second. */
  predicate PairLt(a: (string, string), b: (string, string)) {
    LexLt(a.0, b.0) || (a.0 == b.0 && LexLt(a.1, b.1))
  }

  lemma PairLtIrreflexive(a: (string, string))
    ensures !PairLt(a, a)
  {
    LexLtIrreflexive(a.0);
    LexLtIrreflexive(a.1);
  }

  lemma PairLtTransitive(a: (string, string), b: (string, string), c: (string, string))
    requires PairLt(a, b) && PairLt(b, c)
    ensures PairLt(a, c)
  {
    if LexLt(a.0, b.0) && LexLt(b.0, c.0) {
      LexLtTransitive(a.0, b.0, c.0);
    } else if a.0 == b.0 && b.0 == c.0 {
      LexLtTransitive(a.1, b.1, c.1);
    }
  }

  lemma PairLtTotal(a: (string, string), b: (string, string))
    ensures a == b || PairLt(a, b) || PairLt(b, a)
  {
    LexLtTotal(a.0, b.0);
    LexLtTotal(a.1, b.1);
  }

  lemma PairLtAsymmetric(a: (string, string), b: (string, string))
    requires PairLt(a, b)
    ensures !PairLt(b, a)
  {
    if PairLt(b, a) {
      PairLtTransitive(a, b, a);
      PairLtIrreflexive(a);
    }
  }

  /** "Not smaller" is transitive. */
  lemma PairLeTransitive(a: (string, string), b: (string, string), c: (string, string))
    requires !PairLt(b, a) && !PairLt(c, b)
    ensures !PairLt(c, a)
  {
    PairLtTotal(a, b);
    if PairLt(c, a) && PairLt(a, b) {
      PairLtTransitive(c, a, b);
    }
  }

  /** Row `a` sorts strictly before row `b`. */
  predicate RowLt(a: Row, b: Row) {
    PairLt(SortKey(a), SortKey(b))
  }

  /** The key of a row with the given model and component names. */
  lemma SortKeyOfNames(row: Row, model: string, name: string)
    ensures SortKey(row[MarqueModele := Text(model)][NomComposant := Text(name)]) == (Lower(model), Lower(name))
  {
    var r := row[MarqueModele := Text(model)][NomComposant := Text(name)];
    assert MarqueModele != NomComposant by {
      assert MarqueModele[0] != NomComposant[0];
    }
    assert r[MarqueModele] == Text(model) && r[NomComposant] == Text(name);
    assert KeyText(r, MarqueModele) == model && KeyText(r, NomComposant) == name;
  }

  /** The key ignores letter case: writing the model and component names
      in lower case does not change where a row sorts. */
  lemma SortKeyIgnoresCase(row: Row, model: string, name: string)
    ensures SortKey(row[MarqueModele := Text(Lower(model))][NomComposant := Text(Lower(name))])
         == SortKey(row[MarqueModele := Text(model)][NomComposant := Text(name)])
  {
    SortKeyOfNames(row, Lower(model), Lower(name));
    SortKeyOfNames(row, model, name);
    LowerIdempotent(model);
    LowerIdempotent(name);
  }

  /** No row has a smaller key than a row before it. */
  predicate Sorted(rows: seq<Row>) {
    forall i, j :: 0 <= i < j < |rows| ==> !RowLt(rows[j], rows[i])
  }

  // ---------------------------------------------------------------------
  // The stable sort

  /** Puts `x` before the first row whose key is not smaller than its own. */
  function Insert(x: Row, rows: seq<Row>): (r: seq<Row>)
    ensures multiset(r) == multiset{x} + multiset(rows)
  {
    if rows == [] then [x]
    else if RowLt(rows[0], x) then
      assert rows == [rows[0]] + rows[1..];
      [rows[0]] + Insert(x, rows[1..])
    else [x] + rows
  }

  /** `list.sort(key=SortKey)`: an insertion sort from the back, which
      keeps rows with equal keys in their original order. */
  function SortRows(rows: seq<Row>): seq<Row> {
    if rows == [] then [] else Insert(rows[0], SortRows(rows[1..]))
  }

  lemma {:induction false} InsertSorted(x: Row, rows: seq<Row>)
    requires Sorted(rows)
    ensures Sorted(Insert(x, rows))
  {
    if rows == [] {
    } else if RowLt(rows[0], x) {
      var tail := Insert(x, rows[1..]);
      InsertSorted(x, rows[1..]);
      forall j | 0 <= j < |tail|
        ensures !RowLt(tail[j], rows[0])
      {
        InsertMember(x, rows[1..], tail[j]);
        if tail[j] == x {
          PairLtAsymmetric(SortKey(rows[0]), SortKey(x));
        } else {
          var k :| 0 <= k < |rows[1..]| && rows[1..][k] == tail[j];
          assert rows[k + 1] == tail[j];
        }
      }
      SortedCons(rows[0], tail);
    } else {
      forall j | 0 <= j < |rows|
        ensures !RowLt(rows[j], x)
      {
        if j > 0 {
          PairLeTransitive(SortKey(x), SortKey(rows[0]), SortKey(rows[j]));
        }
      }
      SortedCons(x, rows);
    }
  }

  /** A row of `Insert(x, rows)` is `x` or a row of `rows`. */
  lemma InsertMember(x: Row, rows: seq<Row>, y: Row)
    requires y in Insert(x, rows)
    ensures y == x || y in rows
  {
    assert y in multiset(Insert(x, rows));
  }

  /** A row no larger than any of a sorted list can go in front of it. */
  lemma SortedCons(h: Row, tail: seq<Row>)
    requires Sorted(tail)
    requires forall j :: 0 <= j < |tail| ==> !RowLt(tail[j], h)
    ensures Sorted([h] + tail)
  {
    var r := [h] + tail;
    forall i, j | 0 <= i < j < |r|
      ensures !RowLt(r[j], r[i])
    {
      assert r[j] == tail[j - 1];
      if i > 0 {
        assert r[i] == tail[i - 1];
      }
    }
  }

  /** The sorted rows are in key order. */
  lemma {:induction false} SortRowsSorted(rows: seq<Row>)
    ensures Sorted(SortRows(rows))
  {
    if rows != [] {
      SortRowsSorted(rows[1..]);
      InsertSorted(rows[0], SortRows(rows[1..]));
    }
  }

  /** The sorted rows are the same rows, each as often. */
  lemma {:induction false} SortRowsPermutation(rows: seq<Row>)
    ensures multiset(SortRows(rows)) == multiset(rows)
  {
    if rows != [] {
      SortRowsPermutation(rows[1..]);
      assert rows == [rows[0]] + rows[1..];
    }
  }

  /** The rows whose key is `key`, in order. */
  function WithKey(rows: seq<Row>, key: (string, string)): seq<Row> {
    if rows == [] then []
    else (if SortKey(rows[0]) == key then [rows[0]] else []) + WithKey(rows[1..], key)
  }

  /** The rows with `key` of a list with one more row in front. */
  lemma WithKeyCons(r: Row, rest: seq<Row>, key: (string, string))
    ensures WithKey([r] + rest, key) == (if SortKey(r) == key then [r] else []) + WithKey(rest, key)
  {
    assert ([r] + rest)[1..] == rest;
  }

  /** A row strictly smaller than another does not share its key. */
  lemma LtKeysDiffer(a: Row, b: Row)
    requires RowLt(a, b)
    ensures SortKey(a) != SortKey(b)
  {
    PairLtIrreflexive(SortKey(a));
  }

  /** Putting a row without the key `own` is about in front of two lists
      keeps them related. */
  lemma WithKeyBehind(h: Row, t: seq<Row>, rest: seq<Row>, own: seq<Row>, key: (string, string))
    requires SortKey(h) != key || own == []
    requires WithKey(t, key) == own + WithKey(rest, key)
    ensures WithKey([h] + t, key) == own + WithKey([h] + rest, key)
  {
    WithKeyCons(h, t, key);
    WithKeyCons(h, rest, key);
  }

  /** Inserting `x` adds it in front of the rows with its key. */
  lemma {:induction false} WithKeyInsert(x: Row, rows: seq<Row>, key: (string, string))
    ensures WithKey(Insert(x, rows), key) == (if SortKey(x) == key then [x] else []) + WithKey(rows, key)
  {
    if rows == [] {
      WithKeyCons(x, [], key);
    } else if RowLt(rows[0], x) {
      var own := if SortKey(x) == key then [x] else [];
      WithKeyInsert(x, rows[1..], key);
      LtKeysDiffer(rows[0], x);
      WithKeyBehind(rows[0], Insert(x, rows[1..]), rows[1..], own, key);
      assert [rows[0]] + rows[1..] == rows;
    } else {
      WithKeyCons(x, rows, key);
    }
  }

  /** The sort is stable: rows with the same key keep their order. */
  lemma {:induction false} SortRowsStable(rows: seq<Row>, key: (string, string))
    ensures WithKey(SortRows(rows), key) == WithKey(rows, key)
  {
    if rows != [] {
      SortRowsStable(rows[1..], key);
      WithKeyInsert(rows[0], SortRows(rows[1..]), key);
    }
  }

  /** Whatever the model name before it, `"... 15"` sorts before
      `"... 7"`: names are compared character by character, not by the
      number they contain. */
  lemma NamesCompareAsText(name: string)
    ensures LexLt(Lower(name + "15"), Lower(name + "7"))
  {
    LowerConcat(name, "15");
    LowerConcat(name, "7");
    LowerFixes("15");
    LowerFixes("7");
    LexLtAfterCommonPrefix(Lower(name), "15", "7");
  }

  // ---------------------------------------------------------------------
  // The column list

  /** The columns written first, in this order. */
  const FixedColumns: seq<string> := [
    MarqueModele, NomComposant, Reference,
    PrixFournisseurHt, MargeBruteHt, PrixIntermediaireHt, PrixClientTtc,
    PriceRaw, Link]

  /** A finite set of strings has a least element. */
  lemma {:induction false} LeastExists(s: set<string>)
    requires s != {}
    ensures exists m :: m in s && forall y :: y in s ==> m == y || LexLt(m, y)
    decreases |s|
  {
    var x :| x in s;
    if s != {x} {
      var rest := s - {x};
      LeastExists(rest);
      var m :| m in rest && forall y :: y in rest ==> m == y || LexLt(m, y);
      LexLtTotal(x, m);
      if LexLt(x, m) {
        forall y | y in s
          ensures x == y || LexLt(x, y)
        {
          if y != x && y != m {
            LexLtTransitive(x, m, y);
          }
        }
      } else {
        // `m` is below `x` or equal to it, and below the rest.
        forall y | y in s
          ensures m == y || LexLt(m, y)
        {
          if y != x {
            assert y in rest;
          }
        }
      }
    } else {
      assert forall y :: y in s ==> x == y;
    }
  }

  /** The least string of a non-empty set. */
  function Least(s: set<string>): (m: string)
    requires s != {}
    ensures m in s && forall y :: y in s ==> m == y || LexLt(m, y)
  {
    LeastExists(s);
    assert forall a, b :: LexLt(a, b) ==> !LexLt(b, a) by {
      forall a, b | LexLt(a, b)
        ensures !LexLt(b, a)
      {
        LexLtAsymmetric(a, b);
      }
    }
    var m :| m in s && forall y :: y in s ==> m == y || LexLt(m, y);
    m
  }

  /** `sorted(s)`: the strings of `s` in ascending order. */
  function SortedStrings(s: set<string>): (r: seq<string>)
    ensures |r| == |s|
    ensures forall x :: x in s <==> x in r
    ensures forall i, j :: 0 <= i < j < |r| ==> LexLt(r[i], r[j])
    decreases |s|
  {
    if s == {} then []
    else
      var m := Least(s);
      var rest := SortedStrings(s - {m});
      assert forall x :: x in rest ==> x in s && x != m;
      [m] + rest
  }

  /** `fieldnames`: the fixed columns, then the other keys, sorted. */
  function Fieldnames(allKeys: set<string>): seq<string> {
    FixedColumns + SortedStrings(OtherKeys(allKeys))
  }

  /** The keys that are not fixed columns. */
  function OtherKeys(allKeys: set<string>): (r: set<string>)
    ensures forall k :: k in r <==> k in allKeys && k !in FixedColumns
  {
    set k | k in allKeys && k !in FixedColumns
  }

  /** The fixed column names are distinct. */
  lemma FixedColumnsDistinct()
    ensures forall i, j :: 0 <= i < j < |FixedColumns| ==> FixedColumns[i] != FixedColumns[j]
  {
  }

  /** A prefix followed by a sorted set keeps the prefix, orders the rest
      and holds exactly the strings of both. */
  lemma PrefixThenSorted(p: seq<string>, s: set<string>)
    ensures var f := p + SortedStrings(s);
            && f[..|p|] == p
            && (forall i, j :: |p| <= i < j < |f| ==> LexLt(f[i], f[j]))
            && (forall k :: k in f <==> k in p || k in s)
  {
    var tail := SortedStrings(s);
    var f := p + tail;
    assert f[..|p|] == p;
    forall i, j | |p| <= i < j < |f|
      ensures LexLt(f[i], f[j])
    {
      assert f[i] == tail[i - |p|] && f[j] == tail[j - |p|];
    }
  }

  /** A duplicate-free prefix followed by a sorted set disjoint from it has
      no duplicate. */
  lemma PrefixThenSortedDistinct(p: seq<string>, s: set<string>)
    requires forall i, j :: 0 <= i < j < |p| ==> p[i] != p[j]
    requires forall k :: k in s ==> k !in p
    ensures var f := p + SortedStrings(s);
            forall i, j :: 0 <= i < j < |f| ==> f[i] != f[j]
  {
    var tail := SortedStrings(s);
    var f := p + tail;
    forall i, j | 0 <= i < j < |f|
      ensures f[i] != f[j]
    {
      if j < |p| {
        assert f[i] == p[i] && f[j] == p[j];
      } else if i < |p| {
        assert f[i] == p[i] && f[j] == tail[j - |p|];
        assert f[j] in s;
      } else {
        assert f[i] == tail[i - |p|] && f[j] == tail[j - |p|];
        LexLtIrreflexive(f[i]);
      }
    }
  }

  /** The fixed columns come first, then every other key once, in
      ascending order. */
  lemma FieldnamesOrder(allKeys: set<string>)
    ensures var f := Fieldnames(allKeys);
            && f[..|FixedColumns|] == FixedColumns
            && (forall i, j :: |FixedColumns| <= i < j < |f| ==> LexLt(f[i], f[j]))
            && (forall k :: k in f <==> k in allKeys || k in FixedColumns)
  {
    PrefixThenSorted(FixedColumns, OtherKeys(allKeys));
  }

  /** No column is named twice. */
  lemma FieldnamesDistinct(allKeys: set<string>)
    ensures var f := Fieldnames(allKeys);
            forall i, j :: 0 <= i < j < |f| ==> f[i] != f[j]
  {
    FixedColumnsDistinct();
    PrefixThenSortedDistinct(FixedColumns, OtherKeys(allKeys));
    assert Fieldnames(allKeys) == FixedColumns + SortedStrings(OtherKeys(allKeys));
  }
}

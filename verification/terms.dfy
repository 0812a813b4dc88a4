/**
 * Turning the vocabulary handed to a scan into the list of search terms.
 * A row is either a plain string or an object whose `chinese` or
 * `taiwanese` field may hold the term.
 */
module Terms {
  import opened Wrappers
  import opened Seqs

  /**
   * A vocabulary row. `Missing` stands for a `null` row, on which reading a
   * field throws a TypeError.
   */
  datatype Row =
    | Word(word: string)
    | Entry(chinese: Option<string>, taiwanese: Option<string>)
    | Missing

  /** JavaScript truthiness of an optional string field: present and not empty. */
  predicate Truthy(field: Option<string>) {
    field.Some? && field.value != []
  }

  /** The term a single row contributes (the callback of `vocabData.map`); None is `null`. */
  function RowTerm(row: Row): Option<string>
    requires !row.Missing?
  {
    match row
    case Word(w) => Some(w)
    case Entry(c, tw) =>
      if Truthy(c) then c else if Truthy(tw) then tw else None
  }

  /**
   * `vocabData.map(...).filter(term => term !== null)`; None when a row is
   * `null`, where the map callback throws.
   */
  function ExtractTerms(rows: seq<Row>): (r: Option<seq<string>>)
    ensures r.Some? <==> forall i | 0 <= i < |rows| :: !rows[i].Missing?
    ensures r.Some? ==> |r.value| <= |rows|
  {
    if rows == [] then Some([])
    else if rows[0].Missing? then None
    else
      var rest := ExtractTerms(rows[1..]);
      if rest.None? then None
      else match RowTerm(rows[0])
        case Some(t) => Some([t] + rest.value)
        case None => rest
  }

  /** The number of rows that contribute a term. */
  function Contributing(rows: seq<Row>): nat
    requires forall i | 0 <= i < |rows| :: !rows[i].Missing?
  {
    if rows == [] then 0 else (if RowTerm(rows[0]).Some? then 1 else 0) + Contributing(rows[1..])
  }

  /** The terms one row contributes: none or one. */
  function Lead(row: Row): seq<string>
    requires !row.Missing?
  {
    match RowTerm(row)
    case Some(t) => [t]
    case None => []
  }

  lemma ExtractTermsUnfold(rows: seq<Row>)
    requires rows != [] && !rows[0].Missing? && ExtractTerms(rows[1..]).Some?
    ensures ExtractTerms(rows) == Some(Lead(rows[0]) + ExtractTerms(rows[1..]).value)
  {
    if RowTerm(rows[0]).None? {
      assert [] + ExtractTerms(rows[1..]).value == ExtractTerms(rows[1..]).value;
    }
  }

  /**
   * Extraction works row by row: the terms of a + b are those of a followed
   * by those of b, so order is kept and nothing is deduplicated.
   */
  lemma {:induction false} ExtractTermsAppend(a: seq<Row>, b: seq<Row>)
    requires ExtractTerms(a).Some? && ExtractTerms(b).Some?
    ensures ExtractTerms(a + b) == Some(ExtractTerms(a).value + ExtractTerms(b).value)
  {
    if a == [] {
      assert a + b == b;
      assert [] + ExtractTerms(b).value == ExtractTerms(b).value;
    } else {
      var ab := a + b;
      assert ab[1..] == a[1..] + b && ab[0] == a[0];
      ExtractTermsAppend(a[1..], b);
      ExtractTermsUnfold(a);
      ExtractTermsUnfold(ab);
      Associative(Lead(a[0]), ExtractTerms(a[1..]).value, ExtractTerms(b).value);
    }
  }

  /** One term per contributing row: a row that yields no term is dropped, every other row yields exactly one. */
  lemma {:induction false} ExtractTermsCount(rows: seq<Row>)
    requires forall i | 0 <= i < |rows| :: !rows[i].Missing?
    ensures ExtractTerms(rows).Some? && |ExtractTerms(rows).value| == Contributing(rows)
  {
    if rows != [] {
      ExtractTermsCount(rows[1..]);
    }
  }

  /** Every extracted term is the term of some row, in particular never `null`. */
  lemma {:induction false} ExtractedComeFromRows(rows: seq<Row>, k: nat)
    requires ExtractTerms(rows).Some? && k < |ExtractTerms(rows).value|
    ensures exists i | 0 <= i < |rows| :: RowTerm(rows[i]) == Some(ExtractTerms(rows).value[k])
  {
    var rest := ExtractTerms(rows[1..]);
    var t := ExtractTerms(rows).value[k];
    if RowTerm(rows[0]).Some? && k == 0 {
      assert RowTerm(rows[0]) == Some(t);
    } else {
      var k' := if RowTerm(rows[0]).Some? then k - 1 else k;
      ExtractedComeFromRows(rows[1..], k');
      var i :| 0 <= i < |rows[1..]| && RowTerm(rows[1..][i]) == Some(rest.value[k']);
      assert RowTerm(rows[i + 1]) == Some(t);
    }
  }
}

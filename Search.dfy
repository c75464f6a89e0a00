/**
 * The keyword search both scripts run over the cleaned table: for the i-th
 * term, the rows whose description or item number contains it, tagged with
 * rank i (輸入順序) and a numeric key (項次數值); the frames concatenated in
 * term order, duplicates on (description, unit) dropped keeping the first,
 * and the result sorted by (rank, key) or by key alone.
 */
module Search {
  import opened Wrappers
  import opened Strings
  import opened Seqs
  import opened Table

  /**
   * How 項次數值 is computed from 項次: its first run of digits
   * (`str.extract(r"(\d+)")[0].astype(float)`), or the whole text read as a
   * number (`pd.to_numeric(errors="coerce")`).
   */
  datatype KeyRule = FirstDigits | WholeNumber

  function KeyOf(rule: KeyRule, id: string): (k: Option<real>)
    ensures rule.FirstDigits? ==> (k.None? <==> forall i :: 0 <= i < |id| ==> !IsDigit(id[i]))
    ensures rule.FirstDigits? && k.Some? ==> exists i, d :: FirstRunAt(id, i, d) && k.value == DigitsValue(d) as real
    ensures rule.WholeNumber? ==> (k.Some? <==> IsNumeral(id))
    ensures rule.WholeNumber? && id != [] && AllDigits(id) ==> k == Some(DigitsValue(id) as real)
    ensures rule.WholeNumber? ==> k == ParseNumber(id)
  {
    match rule
    case FirstDigits =>
      (match FirstDigitRun(id)
       case None => None
       case Some(d) => Some(DigitsValue(d) as real))
    case WholeNumber => ParseNumber(id)
  }

  /** The two rules part ways on the sheet's item numbers: `分析表33` has key 33 under one and NaN under the other. */
  lemma KeyRulesDiffer()
    ensures KeyOf(FirstDigits, "分析表33") == Some(33.0)
    ensures KeyOf(WholeNumber, "分析表33") == None
    ensures KeyOf(WholeNumber, "1.329") == Some(1.329)
  {
    var t := "分析表33";
    assert FirstRunAt(t, 3, "33");
    var d := FirstDigitRun(t).value;
    var i :| FirstRunAt(t, i, d);
    FirstRunUnique(t, i, d, 3, "33");
    assert DigitsValue("33") == 33 by {
      assert "33"[..1] == "3" && "3"[..0] == "";
    }
    ParseTextExample();
    ParseDecimalExample();
  }

  /** A row found by the search, with the rank of the term that found it and its numeric key. */
  datatype Hit = Hit(row: Row, rank: nat, key: Option<real>)

  /** `str.contains(term)` on the description or the item number, read literally. */
  predicate Matches(row: Row, term: string): (b: bool)
    ensures term == [] ==> b
    ensures |term| > |row.desc| && |term| > |row.id| ==> !b
  {
    assert term == [] ==> OccursAt(row.desc, term, 0);
    Contains(row.desc, term) || Contains(row.id, term)
  }

  /** The frame of one term: the matching rows in table order, tagged. */
  function Frame(rows: seq<Row>, term: string, rank: nat, rule: KeyRule): (f: seq<Hit>)
    ensures forall h :: h in f ==> h.row in rows && h.rank == rank && Matches(h.row, term) && h.key == KeyOf(rule, h.row.id)
    ensures forall r :: r in rows && Matches(r, term) ==> Hit(r, rank, KeyOf(rule, r.id)) in f
  {
    if rows == [] then []
    else
      var rest := Frame(rows[1..], term, rank, rule);
      assert forall r :: r in rows[1..] ==> r in rows;
      assert forall r :: r in rows ==> r == rows[0] || r in rows[1..];
      (if Matches(rows[0], term) then [Hit(rows[0], rank, KeyOf(rule, rows[0].id))] else []) + rest
  }

  /** A frame works row by row: the hits of two parts of the table follow each other in table order. */
  lemma {:induction false} FrameAppend(a: seq<Row>, b: seq<Row>, term: string, rank: nat, rule: KeyRule)
    ensures Frame(a + b, term, rank, rule) == Frame(a, term, rank, rule) + Frame(b, term, rank, rule)
  {
    if a == [] {
      assert a + b == b;
    } else {
      assert (a + b)[0] == a[0] && (a + b)[1..] == a[1..] + b;
      FrameAppend(a[1..], b, term, rank, rule);
    }
  }

  /** One row gives one hit when it contains the term, and none otherwise. */
  lemma FrameOne(r: Row, term: string, rank: nat, rule: KeyRule)
    ensures Frame([r], term, rank, rule) == if Matches(r, term) then [Hit(r, rank, KeyOf(rule, r.id))] else []
  {
    assert [r][1..] == [];
  }

  /** `pd.concat(frames)`: the frames of all terms, in term order. */
  function Concatenated(rows: seq<Row>, terms: seq<string>, rule: KeyRule): (c: seq<Hit>)
    ensures terms == [] ==> c == []
    ensures |terms| == 1 ==> c == Frame(rows, terms[0], 0, rule)
    decreases |terms|
  {
    if terms == [] then []
    else
      var n := |terms| - 1;
      Concatenated(rows, terms[..n], rule) + Frame(rows, terms[n], n, rule)
  }

  /** One more term appends its frame, ranked after all earlier terms. */
  lemma ConcatenatedSnoc(rows: seq<Row>, terms: seq<string>, t: string, rule: KeyRule)
    ensures Concatenated(rows, terms + [t], rule) == Concatenated(rows, terms, rule) + Frame(rows, t, |terms|, rule)
  {
    var next := terms + [t];
    assert next[..|terms|] == terms && next[|terms|] == t;
  }

  /** Every concatenated row contains the term of its rank. */
  lemma {:induction false} ConcatenatedHit(rows: seq<Row>, terms: seq<string>, rule: KeyRule, h: Hit)
    requires h in Concatenated(rows, terms, rule)
    ensures h.row in rows && h.rank < |terms| && Matches(h.row, terms[h.rank]) && h.key == KeyOf(rule, h.row.id)
    decreases |terms|
  {
    var n := |terms| - 1;
    if h !in Frame(rows, terms[n], n, rule) {
      ConcatenatedHit(rows, terms[..n], rule, h);
      assert terms[..n][h.rank] == terms[h.rank];
    }
  }

  /** Ranks never decrease along `c`. */
  ghost predicate RanksOrdered(c: seq<Hit>)
  {
    forall i, j :: 0 <= i < j < |c| ==> c[i].rank <= c[j].rank
  }

  /** The concatenation lists the frames in term order: ranks never decrease. */
  lemma {:induction false} ConcatenatedRanks(rows: seq<Row>, terms: seq<string>, rule: KeyRule)
    ensures RanksOrdered(Concatenated(rows, terms, rule))
    decreases |terms|
  {
    if terms != [] {
      var n := |terms| - 1;
      var a := Concatenated(rows, terms[..n], rule);
      ConcatenatedRanks(rows, terms[..n], rule);
      forall h | h in a ensures h.rank < n {
        ConcatenatedHit(rows, terms[..n], rule, h);
      }
      AppendRanks(a, Frame(rows, terms[n], n, rule), n);
    }
  }

  lemma AppendRanks(a: seq<Hit>, f: seq<Hit>, n: nat)
    requires RanksOrdered(a)
    requires forall h :: h in a ==> h.rank < n
    requires forall h :: h in f ==> h.rank == n
    ensures RanksOrdered(a + f)
  {
    var c := a + f;
    forall i, j | 0 <= i < j < |c| ensures c[i].rank <= c[j].rank {
      if j < |a| {
        assert c[i] == a[i] && c[j] == a[j];
      } else if i < |a| {
        assert c[i] == a[i] && a[i] in a && c[j] == f[j - |a|] && f[j - |a|] in f;
      } else {
        assert c[i] == f[i - |a|] && f[i - |a|] in f && c[j] == f[j - |a|] && f[j - |a|] in f;
      }
    }
  }

  /** Every row containing the k-th term is in the concatenation with rank k. */
  lemma {:induction false} ConcatenatedCovers(rows: seq<Row>, terms: seq<string>, rule: KeyRule, r: Row, k: nat)
    requires r in rows && k < |terms| && Matches(r, terms[k])
    ensures Hit(r, k, KeyOf(rule, r.id)) in Concatenated(rows, terms, rule)
    decreases |terms|
  {
    var n := |terms| - 1;
    assert Concatenated(rows, terms, rule) == Concatenated(rows, terms[..n], rule) + Frame(rows, terms[n], n, rule);
    if k < n {
      assert terms[..n][k] == terms[k];
      ConcatenatedCovers(rows, terms[..n], rule, r, k);
    } else {
      assert Hit(r, k, KeyOf(rule, r.id)) in Frame(rows, terms[n], n, rule);
    }
  }

  /** Duplicates are judged on (項目及說明, 單位). */
  function DedupKey(h: Hit): (k: (string, Cell))
    ensures k.0 == h.row.desc && k.1 == h.row.unit
  {
    (h.row.desc, h.row.unit)
  }

  /** `sort_values(by=["輸入順序", "項次數值"])`: by rank, then by key with NaN last. */
  predicate RankKeyLe(a: Hit, b: Hit): (le: bool)
    ensures a.rank != b.rank ==> (le <==> a.rank < b.rank)
    ensures a.rank == b.rank ==> (le <==> KeyLe(a.key, b.key))
  {
    a.rank < b.rank || (a.rank == b.rank && KeyLe(a.key, b.key))
  }

  /** `sort_values(by="項次數值")`: by key alone, NaN last. */
  predicate KeyOnlyLe(a: Hit, b: Hit): (le: bool)
    ensures le <==> KeyLe(a.key, b.key)
  {
    KeyLe(a.key, b.key)
  }

  /** The order the "依輸入順序排列" (sort by input order) checkbox chooses. */
  function Order(byInput: bool): (Hit, Hit) -> bool
  {
    if byInput then RankKeyLe else KeyOnlyLe
  }

  lemma OrderTotal(byInput: bool)
    ensures TotalPreorder(Order(byInput))
  {
  }

  /** The list of found rows the user is asked to tick. */
  function View(rows: seq<Row>, terms: seq<string>, rule: KeyRule, byInput: bool): (v: seq<Hit>)
    ensures Sorted(Order(byInput), v)
    ensures DistinctKeys(v, DedupKey)
  {
    var d := Dedup(Concatenated(rows, terms, rule), DedupKey);
    OrderTotal(byInput);
    SortByKeepsDistinctKeys(d, Order(byInput), DedupKey);
    SortBy(d, Order(byInput))
  }

  /**
   * The search of one script run: nothing when there is no term, otherwise
   * the frames gathered term by term, deduplicated and sorted.
   */
  method Find(rows: seq<Row>, terms: seq<string>, rule: KeyRule, byInput: bool) returns (view: Option<seq<Hit>>)
    ensures view.None? <==> terms == []
    ensures view.Some? ==> view.value == View(rows, terms, rule, byInput)
  {
    if terms == [] {
      return None;
    }
    var all := [];
    var i := 0;
    while i < |terms|
      invariant 0 <= i <= |terms|
      invariant all == Concatenated(rows, terms[..i], rule)
    {
      ConcatenatedSnoc(rows, terms[..i], terms[i], rule);
      assert terms[..i] + [terms[i]] == terms[..i + 1];
      all := all + Frame(rows, terms[i], i, rule);
      i := i + 1;
    }
    assert terms[..|terms|] == terms;
    var d := Dedup(all, DedupKey);
    OrderTotal(byInput);
    view := Some(SortBy(d, Order(byInput)));
  }

  // ---------------------------------------------------------------- properties of the view

  /** Every found row contains the term of its rank, and its key is the key of its item number. */
  lemma ViewMatches(rows: seq<Row>, terms: seq<string>, rule: KeyRule, byInput: bool, h: Hit)
    requires h in View(rows, terms, rule, byInput)
    ensures h.row in rows && h.rank < |terms| && Matches(h.row, terms[h.rank])
    ensures h.key == KeyOf(rule, h.row.id)
  {
    var c := Concatenated(rows, terms, rule);
    OrderTotal(byInput);
    SortByMembership(Dedup(c, DedupKey), Order(byInput), h);
    ConcatenatedHit(rows, terms, rule, h);
  }

  /** What survives is the first row of the concatenation with its (description, unit). */
  lemma ViewKeepsFirst(rows: seq<Row>, terms: seq<string>, rule: KeyRule, byInput: bool, h: Hit)
    requires h in View(rows, terms, rule, byInput)
    ensures exists i :: FirstWithKey(Concatenated(rows, terms, rule), DedupKey, i) && Concatenated(rows, terms, rule)[i] == h
  {
    var c := Concatenated(rows, terms, rule);
    OrderTotal(byInput);
    SortByMembership(Dedup(c, DedupKey), Order(byInput), h);
    DedupKeepsFirst(c, DedupKey, h);
  }

  /** The first row of the concatenation with a given (description, unit) survives. */
  lemma ViewHoldsFirst(rows: seq<Row>, terms: seq<string>, rule: KeyRule, byInput: bool, i: int)
    requires FirstWithKey(Concatenated(rows, terms, rule), DedupKey, i)
    ensures Concatenated(rows, terms, rule)[i] in View(rows, terms, rule, byInput)
  {
    var c := Concatenated(rows, terms, rule);
    DedupFirstSurvives(c, DedupKey, i);
    OrderTotal(byInput);
    SortByMembership(Dedup(c, DedupKey), Order(byInput), c[i]);
  }

  /**
   * A row that contains the k-th term is represented: some found row has its
   * description and unit, found by term k or an earlier one.
   */
  lemma ViewCovers(rows: seq<Row>, terms: seq<string>, rule: KeyRule, byInput: bool, r: Row, k: nat)
    requires r in rows && k < |terms| && Matches(r, terms[k])
    ensures exists h :: h in View(rows, terms, rule, byInput) && DedupKey(h) == (r.desc, r.unit) && h.rank <= k
  {
    var c := Concatenated(rows, terms, rule);
    ConcatenatedCovers(rows, terms, rule, r, k);
    ConcatenatedRanks(rows, terms, rule);
    var x := EarliestSurvivor(c, Hit(r, k, KeyOf(rule, r.id)));
    OrderTotal(byInput);
    SortByMembership(Dedup(c, DedupKey), Order(byInput), x);
  }

  /** In a rank-ordered sequence, the survivor of `y`'s key has a rank no greater than `y`'s. */
  lemma EarliestSurvivor(c: seq<Hit>, y: Hit) returns (x: Hit)
    requires RanksOrdered(c) && y in c
    ensures x in Dedup(c, DedupKey) && DedupKey(x) == DedupKey(y) && x.rank <= y.rank
  {
    var j :| 0 <= j < |c| && c[j] == y;
    DedupCovers(c, DedupKey, y);
    x :| x in Dedup(c, DedupKey) && DedupKey(x) == DedupKey(y);
    DedupKeepsFirst(c, DedupKey, x);
    var i :| FirstWithKey(c, DedupKey, i) && c[i] == x;
    assert i <= j;
  }

  /** No row contains any of the terms. */
  ghost predicate NoneMatch(rows: seq<Row>, terms: seq<string>)
  {
    forall r, k :: r in rows && 0 <= k < |terms| ==> !Matches(r, terms[k])
  }

  /** Nothing is found exactly when no row contains any of the terms. */
  lemma ViewEmpty(rows: seq<Row>, terms: seq<string>, rule: KeyRule, byInput: bool)
    ensures View(rows, terms, rule, byInput) == [] <==> NoneMatch(rows, terms)
  {
    var c := Concatenated(rows, terms, rule);
    ViewEmptyIffNone(c, byInput);
    ConcatenatedEmpty(rows, terms, rule);
  }

  /** The concatenation is empty exactly when no row contains any of the terms. */
  lemma ConcatenatedEmpty(rows: seq<Row>, terms: seq<string>, rule: KeyRule)
    ensures Concatenated(rows, terms, rule) == [] <==> NoneMatch(rows, terms)
  {
    var c := Concatenated(rows, terms, rule);
    if c != [] {
      ConcatenatedHit(rows, terms, rule, c[0]);
    }
    if !NoneMatch(rows, terms) {
      var r, k :| r in rows && 0 <= k < |terms| && Matches(r, terms[k]);
      ConcatenatedCovers(rows, terms, rule, r, k);
    }
  }

  /** Deduplicating and sorting leave nothing exactly when there was nothing. */
  lemma ViewEmptyIffNone(c: seq<Hit>, byInput: bool)
    ensures SortBy(Dedup(c, DedupKey), Order(byInput)) == [] <==> c == []
  {
    var d := Dedup(c, DedupKey);
    OrderTotal(byInput);
    SortByLength(d, Order(byInput));
    if c != [] {
      DedupCovers(c, DedupKey, c[0]);
    }
  }
}

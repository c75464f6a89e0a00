/**
 * everybody.py: the unit-price search on its own. The numeric key is the
 * whole item number read as a number; when nothing is found, a preview of
 * the searchable items is shown instead; checkbox keys are the item number
 * and description themselves; the export is sorted by the numeric key.
 */
module Everybody {
  import opened Wrappers
  import opened Strings
  import opened Seqs
  import opened Table
  import opened Search
  import opened Selection

  /** `[，,]`: the query is split on the comma and the full-width comma only. */
  const Delimiters: set<char> := {',', '，'}

  // ---------------------------------------------------------------- searching

  /** `項次 + "｜" + 項目及說明`: a preview line and, for a found row, its checkbox label and key. */
  function Label(r: Row): (l: string)
    ensures |l| == |r.id| + 1 + |r.desc|
    ensures l[..|r.id|] == r.id && l[|r.id|] == '｜' && l[|r.id| + 1..] == r.desc
  {
    r.id + "｜" + r.desc
  }

  function Identity(s: string): string
  {
    s
  }

  /**
   * What the empty-result warning lists: the distinct labels of the table,
   * in table order, at most ten.
   */
  function Preview(rows: seq<Row>): (p: seq<string>)
    ensures |p| <= 10
    ensures Distinct(p)
    ensures forall x :: x in p ==> exists r :: r in rows && Label(r) == x
  {
    var labels := Map(rows, Label);
    var d := Dedup(labels, Identity);
    var p := Take(d, 10);
    forall x | x in p ensures exists r :: r in rows && Label(r) == x {
      IsSubseqMembers(p, d);
      var i :| 0 <= i < |labels| && labels[i] == x;
      assert rows[i] in rows;
    }
    assert forall i :: 0 <= i < |p| ==> p[i] == d[i];
    p
  }

  /** The preview keeps the order of the table. */
  lemma PreviewOrder(rows: seq<Row>)
    ensures IsSubseq(Preview(rows), Map(rows, Label))
  {
    var d := Dedup(Map(rows, Label), Identity);
    IsSubseqTrans(Take(d, 10), d, Map(rows, Label));
  }

  /** The preview lists its labels in the order they first appear in the table. */
  lemma PreviewInOrder(rows: seq<Row>, i: int, j: int)
    requires 0 <= i < j < |Preview(rows)|
    ensures FirstIndex(Map(rows, Label), Identity, Preview(rows)[i]) < FirstIndex(Map(rows, Label), Identity, Preview(rows)[j])
  {
    var labels := Map(rows, Label);
    var d := Dedup(labels, Identity);
    assert Preview(rows) == Take(d, 10);
    DedupInFirstOrder(labels, Identity, i, j);
  }

  /**
   * A label the preview leaves out comes after ten others: the preview is full,
   * and every label it shows first appears before the one left out.
   */
  lemma PreviewFirstTen(rows: seq<Row>, r: Row)
    requires r in rows && Label(r) !in Preview(rows)
    ensures |Preview(rows)| == 10
    ensures forall x :: x in Preview(rows) ==> FirstIndex(Map(rows, Label), Identity, x) < FirstIndex(Map(rows, Label), Identity, Label(r))
  {
    var labels := Map(rows, Label);
    var d := Dedup(labels, Identity);
    var p := Take(d, 10);
    assert Preview(rows) == p;
    var i :| 0 <= i < |rows| && rows[i] == r;
    assert labels[i] == Label(r);
    DedupCovers(labels, Identity, Label(r));
    var m :| 0 <= m < |d| && d[m] == Label(r);
    assert m >= |p|;
    forall x | x in p ensures FirstIndex(labels, Identity, x) < FirstIndex(labels, Identity, Label(r)) {
      var k :| 0 <= k < |p| && p[k] == x;
      assert d[k] == x;
      DedupInFirstOrder(labels, Identity, k, m);
    }
  }

  /** A preview shorter than ten lines lists every label of the table. */
  lemma PreviewCovers(rows: seq<Row>, r: Row)
    requires r in rows && |Preview(rows)| < 10
    ensures Label(r) in Preview(rows)
  {
    var labels := Map(rows, Label);
    var i :| 0 <= i < |rows| && rows[i] == r;
    assert labels[i] == Label(r);
    DedupCovers(labels, Identity, Label(r));
  }

  /** What one search shows. */
  datatype Outcome = NoKeywords | NoMatch(preview: seq<string>) | Found(view: seq<Hit>)

  /**
   * The query of one run: no list without a term; the warning with the
   * preview when nothing is found; otherwise the list to tick.
   */
  method Query(rows: seq<Row>, text: string, byInput: bool) returns (out: Outcome)
    ensures Keywords(text, Delimiters) == [] ==> out == NoKeywords
    ensures Keywords(text, Delimiters) != [] ==>
              var view := View(rows, Keywords(text, Delimiters), WholeNumber, byInput);
              out == if view == [] then NoMatch(Preview(rows)) else Found(view)
  {
    var found := Find(rows, Keywords(text, Delimiters), WholeNumber, byInput);
    if found.None? {
      return NoKeywords;
    }
    if found.value == [] {
      out := NoMatch(Preview(rows));
    } else {
      out := Found(found.value);
    }
  }

  // ---------------------------------------------------------------- selecting

  /** The record a ticked row stores: the row itself with its rank and key. */
  function RowRecord(h: Hit): (r: Record)
    ensures r.id == h.row.id && r.desc == h.row.desc && r.unit == h.row.unit && r.extra == h.row.extra
    ensures r.key == h.key && r.rank == Some(h.rank)
  {
    Record(h.row.id, h.row.desc, h.row.unit, h.key, Some(h.rank), h.row.extra)
  }

  /** The checkbox of a found row, keyed by the row's own item number and description. */
  function RowEntry(h: Hit): Entry
  {
    Entry(Label(h.row), Some(RowRecord(h)))
  }

  /** The key depends on the row alone, not on where the list shows it. */
  lemma RowKeyOfRow(g: Hit, h: Hit)
    requires g.row.id == h.row.id && g.row.desc == h.row.desc
    ensures RowEntry(g).key == RowEntry(h).key
  {
  }

  /** The render loop of the found list; it cannot fail. */
  method ShowRows(session: Session, view: seq<Hit>)
    requires session.Valid()
    modifies session
    ensures session.Valid()
    ensures session.Value() == Rendered(old(session.Value()), Map(view, RowEntry)).0
  {
    var entries := Map(view, RowEntry);
    RenderedSucceeds(session.Value(), entries);
    var ok := session.Render(entries);
  }

  // ---------------------------------------------------------------- export

  /** A row of the exported table: 項次數值 and 輸入順序 are gone. */
  datatype Line = Line(id: string, desc: string, unit: Cell, extra: seq<Column>)

  /** The columns dropped before display and download, where present. */
  const Bookkeeping: set<string> := {"項次數值", "輸入順序", "數量", "單價", "複價", "備註"}

  predicate RecordKeyLe(a: Record, b: Record)
  {
    KeyLe(a.key, b.key)
  }

  lemma RecordKeyLeTotal()
    ensures TotalPreorder(RecordKeyLe)
  {
  }

  function ToLine(r: Record): (l: Line)
    ensures l.id == r.id && l.desc == r.desc && l.unit == r.unit
    ensures forall c :: c in l.extra <==> c in r.extra && c.name !in Bookkeeping
    ensures IsSubseq(l.extra, r.extra)
  {
    Line(r.id, r.desc, r.unit, DropColumns(r.extra, Bookkeeping))
  }

  /** The table shown and downloaded: the selected records sorted by 項次數值, NaN last, bookkeeping dropped. */
  function Export(values: seq<Record>): (lines: seq<Line>)
    ensures |lines| == |values|
  {
    RecordKeyLeTotal();
    SortByLength(values, RecordKeyLe);
    Map(SortBy(values, RecordKeyLe), ToLine)
  }

  /** The export is the selected records, in some order sorted by key, each reduced to its kept columns. */
  lemma ExportSorted(values: seq<Record>)
    ensures exists p :: multiset(p) == multiset(values) && Sorted(RecordKeyLe, p) && Export(values) == Map(p, ToLine)
  {
    RecordKeyLeTotal();
    var p := SortBy(values, RecordKeyLe);
    assert multiset(p) == multiset(values) && Sorted(RecordKeyLe, p) && Export(values) == Map(p, ToLine);
  }

  /** Every selected record appears in the export as often as it is selected. */
  lemma ExportPermutation(values: seq<Record>)
    ensures multiset(Export(values)) == multiset(Map(values, ToLine))
  {
    RecordKeyLeTotal();
    MapPermutation(SortBy(values, RecordKeyLe), values, ToLine);
  }
}

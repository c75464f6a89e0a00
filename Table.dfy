/**
 * The unit-price table once the user has told the scripts which columns hold
 * the item number (項次), the description (項目及說明) and the unit (單位):
 * cells as pandas reads them, the cleaning step run when the user confirms
 * the mapping, the records kept in the selection, the order pandas gives a
 * float column with missing values, and dropping bookkeeping columns.
 */
module Table {
  import opened Wrappers
  import opened Strings
  import opened Seqs

  /** One spreadsheet cell: empty (pandas NaN), text, or a whole number. */
  datatype Cell = Blank | Text(text: string) | Integer(value: int)

  /** A cell of a column the scripts carry along without looking at it (數量, 單價, 備註, ...). */
  datatype Column = Column(name: string, value: Cell)

  /** A row of the uploaded sheet, its three mapped columns first. */
  datatype RawRow = RawRow(id: Cell, desc: Cell, unit: Cell, extra: seq<Column>)

  /** A row after cleaning: 項次 and 項目及說明 are text, 單位 is left as read. */
  datatype Row = Row(id: string, desc: string, unit: Cell, extra: seq<Column>)

  /**
   * What the selection stores for a ticked checkbox: 項次, 項目及說明, 單位,
   * the numeric sort key 項次數值 (`None` is NaN), the rank 輸入順序 of the
   * search term that found the row (`None` where the record has none) and
   * the other columns of the row.
   */
  datatype Record = Record(id: string, desc: string, unit: Cell, key: Option<real>, rank: Option<nat>, extra: seq<Column>)

  /** `astype(str)` on one cell. */
  function CellText(c: Cell): (s: string)
    ensures c.Integer? ==> ParseInt(s) == Some(c.value) && s == IntToString(c.value)
    ensures c.Text? ==> s == c.text
    ensures c.Blank? ==> s == "nan"
  {
    match c
    case Blank => "nan"
    case Text(t) => t
    case Integer(v) => IntToString(v)
  }

  // ---------------------------------------------------------------- cleaning

  /** `.str.replace("　", "").str.strip()`: no full-width space anywhere, no whitespace at either end. */
  function CleanDescription(d: string): (r: string)
    ensures Stripped(r) && Free(r, {FullWidthSpace})
    ensures forall c :: c in r ==> c in d
  {
    Strip(Without(d, {FullWidthSpace}))
  }

  /**
   * Cleaning keeps everything but U+3000 and the whitespace at the ends: the
   * result is a slice of the description with its full-width spaces removed,
   * and only whitespace lies outside that slice.
   */
  lemma CleanDescriptionCuts(d: string)
    ensures exists i :: CutAt(Without(d, {FullWidthSpace}), CleanDescription(d), i)
  {
    var w := Without(d, {FullWidthSpace});
    StripCutsSpaces(w);
    var c := CleanDescription(d);
    assert c == Strip(w);
    var i :| CutAt(w, c, i);
  }

  /** Cleaning a clean description changes nothing. */
  lemma CleanDescriptionIdempotent(d: string)
    ensures CleanDescription(CleanDescription(d)) == CleanDescription(d)
  {
    var r := CleanDescription(d);
    WithoutFree(r, {FullWidthSpace});
    StripOfStripped(r);
  }

  /** The row has an item number and a description (`notna()` on both). */
  predicate Present(r: RawRow)
  {
    !r.id.Blank? && !r.desc.Blank?
  }

  /** A row as the cleaned table holds it: the item number as text, the description cleaned, the rest as read. */
  function CleanRow(r: RawRow): (row: Row)
    ensures row.id == CellText(r.id) && row.desc == CleanDescription(CellText(r.desc))
    ensures Stripped(row.desc) && Free(row.desc, {FullWidthSpace})
    ensures row.unit == r.unit && row.extra == r.extra
  {
    Row(CellText(r.id), CleanDescription(CellText(r.desc)), r.unit, r.extra)
  }

  /**
   * The table built when the user confirms the column mapping: rows missing
   * an item number or a description are dropped, the description is cleaned
   * and the item number turned into text.
   */
  function Normalise(raws: seq<RawRow>): (rows: seq<Row>)
    ensures |rows| <= |raws|
    ensures forall k :: 0 <= k < |rows| ==> Stripped(rows[k].desc) && Free(rows[k].desc, {FullWidthSpace})
  {
    Map(Filter(raws, Present), CleanRow)
  }

  /** A cleaned row comes from a row with both cells present, and every such row gives one. */
  lemma NormaliseMembers(raws: seq<RawRow>, row: Row)
    ensures row in Normalise(raws) <==> exists i :: 0 <= i < |raws| && Present(raws[i]) && CleanRow(raws[i]) == row
  {
    MapFilterMembers(raws, Present, CleanRow, row);
  }

  /** Cleaning keeps the order of the table: it works row by row. */
  lemma NormaliseAppend(a: seq<RawRow>, b: seq<RawRow>)
    ensures Normalise(a + b) == Normalise(a) + Normalise(b)
  {
    FilterAppend(a, b, Present);
    MapAppend(Filter(a, Present), Filter(b, Present), CleanRow);
  }

  // ---------------------------------------------------------------- numeric key

  /** `sort_values` on a float column: ascending, NaN (`None`) last. */
  predicate KeyLe(a: Option<real>, b: Option<real>): (le: bool)
    ensures a.Some? && b.Some? ==> (le <==> a.value <= b.value)
    ensures b.None? ==> le
    ensures a.None? && b.Some? ==> !le
  {
    b.None? || (a.Some? && a.value <= b.value)
  }

  lemma KeyLeTotalPreorder()
    ensures TotalPreorder(KeyLe)
  {
  }

  // ---------------------------------------------------------------- columns

  /** `drop(columns=names, errors="ignore")` on the carried-along columns. */
  function DropColumns(cols: seq<Column>, names: set<string>): (r: seq<Column>)
    ensures forall c :: c in r <==> c in cols && c.name !in names
    ensures IsSubseq(r, cols)
  {
    Filter(cols, (c: Column) => c.name !in names)
  }

  /** The columns left over keep their relative order. */
  lemma DropColumnsAppend(a: seq<Column>, b: seq<Column>, names: set<string>)
    ensures DropColumns(a + b, names) == DropColumns(a, names) + DropColumns(b, names)
  {
    FilterAppend(a, b, (c: Column) => c.name !in names);
  }
}

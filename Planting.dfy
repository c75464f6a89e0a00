/**
 * Planting_tools.py: the unit-price search with a second, plant table.
 * Plants are filtered by variety and ticked into the same selection as the
 * items; items get a checkbox key built from their cleaned item number and
 * their position in the list; a reset button unticks everything; the export
 * re-keys every record by the first digit run of its item number.
 */
module PlantingTools {
  import opened Wrappers
  import opened Strings
  import opened Seqs
  import opened Table
  import opened Search
  import opened Selection

  // ---------------------------------------------------------------- reading a workbook

  /** The Excel reader `read_excel_safely` hands a file to. */
  datatype Engine = Xlrd | Openpyxl

  /** Index of the last `c` in `s`, or -1 when there is none. */
  function LastIndexOf(s: string, c: char): (i: int)
    ensures -1 <= i < |s|
    ensures i >= 0 ==> s[i] == c
    ensures forall k :: i < k < |s| ==> s[k] != c
    decreases |s|
  {
    if s == [] then -1
    else if s[|s| - 1] == c then |s| - 1
    else LastIndexOf(s[..|s| - 1], c)
  }

  /** The only `c` after index `i` is none, and `s[i]` is `c`: `i` is the last `c`. */
  lemma LastIndexOfIs(s: string, c: char, i: int)
    requires 0 <= i < |s| && s[i] == c
    requires forall k :: i < k < |s| ==> s[k] != c
    ensures LastIndexOf(s, c) == i
  {
  }

  /** `name[lo..hi]` holds a character other than a dot: the scan `splitext` makes before the last dot. */
  predicate NonDotBetween(name: string, lo: nat, hi: nat)
    requires hi <= |name|
    decreases hi - lo
  {
    lo < hi && (name[lo] != '.' || NonDotBetween(name, lo + 1, hi))
  }

  lemma {:induction false} NonDotBetweenAt(name: string, lo: nat, j: nat, hi: nat)
    requires lo <= j < hi <= |name| && name[j] != '.'
    ensures NonDotBetween(name, lo, hi)
    decreases j - lo
  {
    if lo < j && name[lo] == '.' {
      NonDotBetweenAt(name, lo + 1, j, hi);
    }
  }

  /**
   * `os.path.splitext(name)[1]`: from the last dot of the file name to the
   * end, provided something other than a dot precedes that dot in the file
   * name; empty otherwise.
   */
  function Extension(name: string): (ext: string)
    ensures ext == [] || (ext[0] == '.' && forall k :: 0 < k < |ext| ==> ext[k] != '.' && ext[k] != '/')
    ensures |ext| <= |name| && ext == name[|name| - |ext|..]
  {
    var sep := LastIndexOf(name, '/');
    var dot := LastIndexOf(name, '.');
    if dot > sep && NonDotBetween(name, sep + 1, dot) then
      var ext := name[dot..];
      assert forall k :: 0 < k < |ext| ==> ext[k] == name[dot + k];
      ext
    else []
  }

  /** A file name made of a stem and an extension: the extension is what `splitext` finds. */
  lemma ExtensionOf(stem: string, ext: string)
    requires forall k :: 0 <= k < |stem| ==> stem[k] != '/'
    requires exists k :: 0 <= k < |stem| && stem[k] != '.'
    requires |ext| >= 1 && ext[0] == '.'
    requires forall k :: 0 <= k < |ext| ==> ext[k] != '/'
    requires forall k :: 0 < k < |ext| ==> ext[k] != '.'
    ensures Extension(stem + ext) == ext
  {
    var name := stem + ext;
    assert forall k :: |stem| <= k < |name| ==> name[k] == ext[k - |stem|];
    assert forall k :: 0 <= k < |stem| ==> name[k] == stem[k];
    LastIndexOfIs(name, '.', |stem|);
    assert forall k :: 0 <= k < |name| ==> name[k] != '/';
    assert LastIndexOf(name, '/') == -1;
    var j :| 0 <= j < |stem| && stem[j] != '.';
    NonDotBetweenAt(name, 0, j, |stem|);
    assert name[|stem|..] == ext;
  }

  /** `str.lower()` on one ASCII character: a capital letter becomes its small letter, anything else is kept. */
  function LowerChar(c: char): (d: char)
    ensures 'A' <= c <= 'Z' ==> d == (c as int + 32) as char && 'a' <= d <= 'z'
    ensures !('A' <= c <= 'Z') ==> d == c
  {
    if 'A' <= c <= 'Z' then (c as int + 32) as char else c
  }

  /** `str.lower()` on ASCII, character by character. */
  function LowerAscii(s: string): (r: string)
    ensures |r| == |s|
    ensures forall i :: 0 <= i < |s| ==> r[i] == LowerChar(s[i])
  {
    if s == [] then [] else [LowerChar(s[0])] + LowerAscii(s[1..])
  }

  /** `read_excel_safely`: `.xls` goes to xlrd, `.xlsx` to openpyxl, in any case; anything else is refused. */
  function EngineFor(name: string): (r: Option<Engine>)
    ensures r == Some(Xlrd) ==> |name| >= 4 && LowerAscii(name[|name| - 4..]) == ".xls"
    ensures r == Some(Openpyxl) ==> |name| >= 5 && LowerAscii(name[|name| - 5..]) == ".xlsx"
    ensures r.Some? ==> '.' in name
  {
    var ext := LowerAscii(Extension(name));
    if ext == ".xls" then Some(Xlrd)
    else if ext == ".xlsx" then Some(Openpyxl)
    else None
  }

  /**
   * For a file name made of a stem and an extension, the engine is chosen by
   * the extension alone, whatever the case of its letters.
   */
  lemma EngineForName(stem: string, ext: string)
    requires forall k :: 0 <= k < |stem| ==> stem[k] != '/'
    requires exists k :: 0 <= k < |stem| && stem[k] != '.'
    requires |ext| >= 1 && ext[0] == '.'
    requires forall k :: 0 <= k < |ext| ==> ext[k] != '/'
    requires forall k :: 0 < k < |ext| ==> ext[k] != '.'
    ensures LowerAscii(ext) == ".xls" ==> EngineFor(stem + ext) == Some(Xlrd)
    ensures LowerAscii(ext) == ".xlsx" ==> EngineFor(stem + ext) == Some(Openpyxl)
    ensures LowerAscii(ext) != ".xls" && LowerAscii(ext) != ".xlsx" ==> EngineFor(stem + ext) == None
  {
    ExtensionOf(stem, ext);
  }

  /** An upper-case `.XLS` workbook is read with xlrd. */
  lemma EngineForUpperCase()
    ensures EngineFor("BOOK.XLS") == Some(Xlrd)
  {
    assert "BOOK" + ".XLS" == "BOOK.XLS";
    assert "BOOK"[0] != '.';
    var l := LowerAscii(".XLS");
    assert l[0] == '.' && l[1] == 'x' && l[2] == 'l' && l[3] == 's';
    assert l == ".xls";
    EngineForName("BOOK", ".XLS");
  }

  // ---------------------------------------------------------------- search terms

  /** `[,，、]`: both text boxes split on the comma, the full-width comma and the enumeration comma. */
  const Delimiters: set<char> := {',', '，', '、'}

  // ---------------------------------------------------------------- plants

  /** A row of the plant sheet, its mapped columns: group, description (說明), variety (品種). */
  datatype RawPlant = RawPlant(group: Cell, spec: Cell, variety: Cell)

  datatype Plant = Plant(group: int, spec: string, variety: string)

  /** `dropna(subset=["group", "說明", "品種"])` keeps the row. */
  predicate Complete(r: RawPlant)
  {
    !r.group.Blank? && !r.spec.Blank? && !r.variety.Blank?
  }

  /** `astype(int)` on one cell; `None` where it raises. */
  function AsInt(c: Cell): (r: Option<int>)
    ensures c.Blank? ==> r.None?
    ensures c.Integer? ==> r == Some(c.value)
    ensures c.Text? ==> (r.Some? <==> IsIntNumeral(c.text)) && r == ParseInt(c.text)
  {
    match c
    case Integer(v) => Some(v)
    case Text(t) => ParseInt(t)
    case Blank => None
  }

  /** One kept row: the group made an integer, description and variety made text; `None` where `astype(int)` raises. */
  function CleanPlant(r: RawPlant): (p: Option<Plant>)
    ensures p.Some? <==> AsInt(r.group).Some?
    ensures p.Some? ==> p.value.group == AsInt(r.group).value && p.value.spec == CellText(r.spec) && p.value.variety == CellText(r.variety)
  {
    match AsInt(r.group)
    case None => None
    case Some(g) => Some(Plant(g, CellText(r.spec), CellText(r.variety)))
  }

  /**
   * The cleaned plant table: incomplete rows dropped, the group turned into
   * an integer, the texts into strings; `None` when the group of a kept row
   * is not an integer (the conversion raises).
   */
  function CleanPlants(raws: seq<RawPlant>): (r: Option<seq<Plant>>)
    ensures r.None? <==> exists i :: 0 <= i < |raws| && Complete(raws[i]) && CleanPlant(raws[i]).None?
    ensures r.Some? ==> |r.value| <= |raws|
    ensures r.Some? ==> forall p :: p in r.value ==> exists i :: 0 <= i < |raws| && Complete(raws[i]) && CleanPlant(raws[i]) == Some(p)
    ensures r.Some? ==> forall i :: 0 <= i < |raws| && Complete(raws[i]) ==> CleanPlant(raws[i]).Some? && CleanPlant(raws[i]).value in r.value
  {
    if raws == [] then Some([])
    else
      var rest := CleanPlants(raws[1..]);
      StepCleans(raws, rest);
      Step(Complete(raws[0]), CleanPlant(raws[0]), rest)
  }

  /** The contract of `CleanPlants`, for a result `r` of cleaning `raws`. */
  predicate Cleaned(raws: seq<RawPlant>, r: Option<seq<Plant>>)
  {
    && (r.None? <==> exists i :: 0 <= i < |raws| && Complete(raws[i]) && CleanPlant(raws[i]).None?)
    && (r.Some? ==> |r.value| <= |raws|)
    && (r.Some? ==> forall p :: p in r.value ==> exists i :: 0 <= i < |raws| && Complete(raws[i]) && CleanPlant(raws[i]) == Some(p))
    && (r.Some? ==> forall i :: 0 <= i < |raws| && Complete(raws[i]) ==> CleanPlant(raws[i]).Some? && CleanPlant(raws[i]).value in r.value)
  }

  /** Putting the first row in front of the cleaned rest keeps the contract. */
  lemma StepCleans(raws: seq<RawPlant>, rest: Option<seq<Plant>>)
    requires raws != [] && Cleaned(raws[1..], rest)
    ensures Cleaned(raws, Step(Complete(raws[0]), CleanPlant(raws[0]), rest))
  {
    assert forall i :: 0 < i < |raws| ==> raws[i] == raws[1..][i - 1];
    if rest.None? {
      var i :| 0 <= i < |raws[1..]| && Complete(raws[1..][i]) && CleanPlant(raws[1..][i]).None?;
      assert raws[i + 1] == raws[1..][i];
    } else if !Complete(raws[0]) {
      assert forall i :: 0 <= i < |raws| && Complete(raws[i]) ==> 0 < i && CleanPlant(raws[1..][i - 1]).Some? && CleanPlant(raws[1..][i - 1]).value in rest.value;
    } else if CleanPlant(raws[0]).Some? {
      forall q | q in rest.value ensures exists i :: 0 <= i < |raws| && Complete(raws[i]) && CleanPlant(raws[i]) == Some(q) {
        var i :| 0 <= i < |raws[1..]| && Complete(raws[1..][i]) && CleanPlant(raws[1..][i]) == Some(q);
        assert raws[i + 1] == raws[1..][i];
      }
      assert forall i :: 0 < i < |raws| && Complete(raws[i]) ==> CleanPlant(raws[1..][i - 1]).Some? && CleanPlant(raws[1..][i - 1]).value in rest.value;
    }
  }

  /** Cleaning works row by row: the plants of two parts of the sheet follow each other in sheet order. */
  lemma {:induction false} CleanPlantsAppend(a: seq<RawPlant>, b: seq<RawPlant>)
    ensures CleanPlants(a + b) == Join(CleanPlants(a), CleanPlants(b))
  {
    if a == [] {
      assert a + b == b;
      assert CleanPlants(a) == Some([]);
      assert CleanPlants(b).Some? ==> [] + CleanPlants(b).value == CleanPlants(b).value;
    } else {
      var x, t := a[0], a[1..];
      assert a == [x] + t && a + b == [x] + (t + b);
      CleanPlantsAppend(t, b);
      CleanPlantsCons(x, t + b);
      CleanPlantsCons(x, t);
      JoinAfterStep(Complete(x), CleanPlant(x), CleanPlants(t), CleanPlants(b));
    }
  }

  /** Both results joined, or `None` when either part raises. */
  function Join(u: Option<seq<Plant>>, v: Option<seq<Plant>>): Option<seq<Plant>>
  {
    if u.Some? && v.Some? then Some(u.value + v.value) else None
  }

  /** One row in front of the cleaned `rest`: kept when complete, dropped otherwise; `None` when it raises. */
  function Step(complete: bool, p: Option<Plant>, rest: Option<seq<Plant>>): Option<seq<Plant>>
  {
    if rest.None? then None
    else if !complete then rest
    else if p.None? then None
    else Some([p.value] + rest.value)
  }

  lemma CleanPlantsCons(x: RawPlant, t: seq<RawPlant>)
    ensures CleanPlants([x] + t) == Step(Complete(x), CleanPlant(x), CleanPlants(t))
  {
    assert ([x] + t)[0] == x && ([x] + t)[1..] == t;
  }

  lemma JoinAfterStep(c: bool, p: Option<Plant>, u: Option<seq<Plant>>, v: Option<seq<Plant>>)
    ensures Step(c, p, Join(u, v)) == Join(Step(c, p, u), v)
  {
    if u.Some? && v.Some? && c && p.Some? {
      assert [p.value] + (u.value + v.value) == ([p.value] + u.value) + v.value;
    }
  }

  predicate GroupLe(a: Plant, b: Plant)
  {
    a.group <= b.group
  }

  lemma GroupLeTotal()
    ensures TotalPreorder(GroupLe)
  {
  }

  /** `str.contains("|".join(map(re.escape, keywords)))`: some keyword occurs in `s` literally. */
  predicate MatchesAny(s: string, keywords: seq<string>): (b: bool)
    ensures b ==> keywords != []
    ensures forall k :: 0 <= k < |keywords| && Contains(s, keywords[k]) ==> b
  {
    exists k :: 0 <= k < |keywords| && Contains(s, keywords[k])
  }

  /** The boolean mask of the plant filter: the variety contains one of the keywords. */
  function Wanted(keywords: seq<string>): Plant -> bool
  {
    (p: Plant) => MatchesAny(p.variety, keywords)
  }

  /**
   * The plant list: with keywords, the plants whose variety contains one of
   * them; without, the first five plants; either way ordered by group.
   */
  function PlantView(plants: seq<Plant>, keywords: seq<string>): (v: seq<Plant>)
    ensures Sorted(GroupLe, v)
    ensures keywords != [] ==> forall p :: p in v <==> p in plants && MatchesAny(p.variety, keywords)
    ensures keywords != [] ==> multiset(v) == multiset(Filter(plants, Wanted(keywords)))
    ensures keywords == [] ==> multiset(v) == multiset(Take(plants, 5))
    ensures |v| <= |plants|
  {
    var picked := if keywords != [] then Filter(plants, Wanted(keywords)) else Take(plants, 5);
    GroupLeTotal();
    SortByLength(picked, GroupLe);
    forall p ensures p in SortBy(picked, GroupLe) <==> p in picked {
      SortByMembership(picked, GroupLe, p);
    }
    SortBy(picked, GroupLe)
  }

  /** The checkbox key of a plant. */
  function PlantKey(p: Plant): (k: string)
    ensures StartsWith(k, "plant_")
  {
    "plant_" + (IntToString(p.group) + "_" + p.variety)
  }

  /** The key tells group and variety apart: the printed group holds no `_`. */
  lemma PlantKeyInjective(a: Plant, b: Plant)
    requires PlantKey(a) == PlantKey(b)
    ensures a.group == b.group && a.variety == b.variety
  {
    var x, y := IntToString(a.group), IntToString(b.group);
    NoUnderscoreInInt(a.group);
    NoUnderscoreInInt(b.group);
    var u, v := x + ['_'] + a.variety, y + ['_'] + b.variety;
    DropPrefix("plant_", u);
    DropPrefix("plant_", v);
    SeparatedHeads(x, a.variety, y, b.variety, '_');
    assert ParseInt(x) == Some(a.group) && ParseInt(y) == Some(b.group);
  }

  lemma DropPrefix(p: string, w: string)
    ensures (p + w)[|p|..] == w
  {
  }

  lemma NoUnderscoreInInt(i: int)
    ensures '_' !in IntToString(i)
  {
    var s := IntToString(i);
    if i < 0 {
      var d := NatToString(-i);
      assert s == "-" + d;
      assert forall k :: 0 <= k < |d| ==> IsDigit(d[k]);
      assert forall k :: 0 < k < |s| ==> s[k] == d[k - 1];
    } else {
      assert AllDigits(s);
    }
  }

  /** The record a ticked plant stores: the group as text and as number, variety and description, unit 株. */
  function PlantRecord(p: Plant): (r: Record)
    ensures r.id == IntToString(p.group)
    ensures ParseInt(r.id) == Some(p.group) && r.key == Some(p.group as real)
    ensures r.desc == p.variety + "，" + p.spec && r.unit == Text("株")
    ensures r.rank.None? && r.extra == []
  {
    Record(IntToString(p.group), p.variety + "，" + p.spec, Text("株"), Some(p.group as real), None, [])
  }

  function PlantEntry(p: Plant): Entry
  {
    Entry(PlantKey(p), Some(PlantRecord(p)))
  }

  /**
   * The plant section of one run: clean the table, filter and sort it, and
   * draw a checkbox per plant. `false` when cleaning raises.
   */
  method ShowPlants(session: Session, raws: seq<RawPlant>, query: string) returns (ok: bool)
    requires session.Valid()
    modifies session
    ensures session.Valid()
    ensures CleanPlants(raws).None? ==> !ok && session.Value() == old(session.Value())
    ensures CleanPlants(raws).Some? ==>
              var view := PlantView(CleanPlants(raws).value, Keywords(query, Delimiters));
              ok && session.Value() == Rendered(old(session.Value()), Map(view, PlantEntry)).0
  {
    var plants := CleanPlants(raws);
    if plants.None? {
      return false;
    }
    var entries := Map(PlantView(plants.value, Keywords(query, Delimiters)), PlantEntry);
    RenderedSucceeds(session.Value(), entries);
    ok := session.Render(entries);
  }

  // ---------------------------------------------------------------- items

  /** The item number shown and stored: what follows the first `.` when the number starts with `1.`. */
  function Pid(raw: string): (pid: string)
    ensures StartsWith(raw, "1.") ==> pid == raw[2..]
    ensures !StartsWith(raw, "1.") ==> pid == raw
  {
    if StartsWith(raw, "1.") then
      assert raw[0] == '1' && raw[1] == '.';
      var r := AfterFirst(raw, '.');
      assert r == raw[2..];
      r
    else raw
  }

  /** The checkbox key of the item at position `idx` of the list. */
  function ItemKey(pid: string, idx: nat): (k: string)
    ensures StartsWith(k, "item_")
  {
    "item_" + pid + "|" + NatToString(idx)
  }

  /** Different positions, or different item numbers, give different keys. */
  lemma ItemKeyInjective(p: string, i: nat, q: string, j: nat)
    requires ItemKey(p, i) == ItemKey(q, j)
    ensures i == j && p == q
  {
    var x, y := NatToString(i), NatToString(j);
    assert forall k :: 0 <= k < |x| ==> x[k] != '|';
    assert forall k :: 0 <= k < |y| ==> y[k] != '|';
    SeparatedTails("item_" + p, x, "item_" + q, y, '|');
    NatToStringInjective(i, j);
    assert p == ("item_" + p)[5..] && q == ("item_" + q)[5..];
  }

  /**
   * The record a ticked item stores: its row with the item number replaced by
   * the pid and the key by `float(pid)`; `None` where `float` raises.
   */
  function ItemRecord(h: Hit): (r: Option<Record>)
    ensures r.None? <==> ParseNumber(Pid(h.row.id)).None?
    ensures r.Some? ==> r.value.id == Pid(h.row.id) && r.value.key == ParseNumber(r.value.id)
    ensures r.Some? ==> r.value.rank == Some(h.rank) && r.value.desc == h.row.desc && r.value.unit == h.row.unit
    ensures r.Some? ==> r.value.extra == h.row.extra
  {
    var pid := Pid(h.row.id);
    match ParseNumber(pid)
    case None => None
    case Some(x) => Some(Record(pid, h.row.desc, h.row.unit, Some(x), Some(h.rank), h.row.extra))
  }

  /** One checkbox per found item, keyed by position. */
  function ItemEntries(view: seq<Hit>): (es: seq<Entry>)
    ensures |es| == |view|
    ensures forall i :: 0 <= i < |view| ==> es[i].key == ItemKey(Pid(view[i].row.id), i) && es[i].rec == ItemRecord(view[i])
    ensures DistinctKeys(es, EntryKey)
  {
    var es := seq(|view|, i requires 0 <= i < |view| => Entry(ItemKey(Pid(view[i].row.id), i), ItemRecord(view[i])));
    forall i, j | 0 <= i < j < |es| ensures EntryKey(es[i]) != EntryKey(es[j]) {
      if EntryKey(es[i]) == EntryKey(es[j]) {
        ItemKeyInjective(Pid(view[i].row.id), i, Pid(view[j].row.id), j);
      }
    }
    es
  }

  /**
   * The item section of one run: split the query, search with the first digit
   * run as key, and draw a checkbox per found item. `false` when a ticked
   * item's pid is not a number (the run stops there).
   */
  method ShowItems(session: Session, table: seq<Row>, query: string, byInput: bool) returns (ok: bool)
    requires session.Valid()
    modifies session
    ensures session.Valid()
    ensures Keywords(query, Delimiters) == [] ==> ok && session.Value() == old(session.Value())
    ensures Keywords(query, Delimiters) != [] ==>
              var view := View(table, Keywords(query, Delimiters), FirstDigits, byInput);
              (session.Value(), ok) == Rendered(old(session.Value()), ItemEntries(view))
  {
    var view := Find(table, Keywords(query, Delimiters), FirstDigits, byInput);
    if view.None? {
      return true;
    }
    ok := session.Render(ItemEntries(view.value));
  }

  /** Item checkboxes have distinct keys, so a rerun with no click in between changes nothing. */
  lemma ItemRerunIsStable(s: Store, view: seq<Hit>)
    requires s.Valid()
    ensures Rendered(Rendered(s, ItemEntries(view)).0, ItemEntries(view)) == Rendered(s, ItemEntries(view))
  {
    RerunIsStable(s, ItemEntries(view));
  }

  /** Plant and item checkboxes are the ones the reset button unticks. */
  lemma WidgetKeys(p: Plant, pid: string, idx: nat)
    ensures IsWidgetKey(PlantKey(p)) && IsWidgetKey(ItemKey(pid, idx))
  {
    assert PlantKey(p)[..6] == "plant_";
    assert ItemKey(pid, idx)[..5] == "item_";
  }

  // ---------------------------------------------------------------- export

  /** A row of the exported table. */
  datatype Line = Line(id: string, desc: string, unit: Cell, key: Option<real>, extra: seq<Column>)

  /** The columns dropped before display and download, where present. */
  const Bookkeeping: set<string> := {"純項次", "輸入順序", "數量", "單價", "複價", "備註"}

  /** A record with its 純項次, the integer value of the first digit run of its item number. */
  datatype Numbered = Numbered(n: nat, rec: Record)

  function Number(r: Record): (n: Option<nat>)
    ensures n.None? <==> forall i :: 0 <= i < |r.id| ==> !IsDigit(r.id[i])
    ensures n.Some? ==> exists i, d :: FirstRunAt(r.id, i, d) && n.value == DigitsValue(d)
  {
    match FirstDigitRun(r.id)
    case None => None
    case Some(d) => Some(DigitsValue(d))
  }

  /** Every record numbered; `None` when one has no digit (`astype(int)` raises on NaN). */
  function Numbering(values: seq<Record>): (r: Option<seq<Numbered>>)
    ensures r.None? <==> exists i :: 0 <= i < |values| && Number(values[i]).None?
    ensures r.Some? ==> |r.value| == |values|
    ensures r.Some? ==> forall i :: 0 <= i < |values| ==> Number(values[i]).Some? && r.value[i] == Numbered(Number(values[i]).value, values[i])
  {
    if forall i :: 0 <= i < |values| ==> Number(values[i]).Some? then
      Some(seq(|values|, i requires 0 <= i < |values| => Numbered(Number(values[i]).value, values[i])))
    else None
  }

  predicate NumberLe(a: Numbered, b: Numbered)
  {
    a.n <= b.n
  }

  /** The item number rewritten to the number's decimal text, bookkeeping columns dropped. */
  function ToLine(x: Numbered): (l: Line)
    ensures l.id == NatToString(x.n)
    ensures AllDigits(l.id) && DigitsValue(l.id) == x.n && (l.id[0] == '0' ==> l.id == "0")
    ensures l.desc == x.rec.desc && l.unit == x.rec.unit && l.key == x.rec.key
    ensures forall c :: c in l.extra <==> c in x.rec.extra && c.name !in Bookkeeping
  {
    Line(NatToString(x.n), x.rec.desc, x.rec.unit, x.rec.key, DropColumns(x.rec.extra, Bookkeeping))
  }

  /**
   * The table shown and downloaded: the selected records ordered by the
   * number in their item number, that number as the item number; `None`
   * when a record's item number holds no digit.
   */
  function Export(values: seq<Record>): (r: Option<seq<Line>>)
    ensures r.None? <==> exists i :: 0 <= i < |values| && Number(values[i]).None?
    ensures r.Some? ==> |r.value| == |values|
    ensures r.Some? ==> forall i :: 0 <= i < |r.value| ==> AllDigits(r.value[i].id)
    ensures r.Some? ==> forall i, j :: 0 <= i < j < |r.value| ==> DigitsValue(r.value[i].id) <= DigitsValue(r.value[j].id)
  {
    match Numbering(values)
    case None => None
    case Some(ns) =>
      assert TotalPreorder(NumberLe);
      var sorted := SortBy(ns, NumberLe);
      SortByLength(ns, NumberLe);
      Some(Map(sorted, ToLine))
  }

  /** The export lists every selected record exactly once. */
  lemma ExportPermutation(values: seq<Record>)
    requires Export(values).Some?
    ensures multiset(Export(values).value) == multiset(Map(Numbering(values).value, ToLine))
  {
    var ns := Numbering(values).value;
    assert TotalPreorder(NumberLe);
    MapPermutation(SortBy(ns, NumberLe), ns, ToLine);
  }
}

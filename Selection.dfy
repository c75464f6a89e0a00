/**
 * The part of the UI session the scripts manage themselves: the dictionary
 * `selected_items` from checkbox key to record, which keeps its insertion
 * order, and the checkbox states the UI library keeps under the same keys.
 *
 * A script run draws one checkbox per found row. A checkbox shows the state
 * stored under its key, or, when no state is stored yet, whether its key is
 * in `selected_items`; a ticked box (over)writes its record into the
 * dictionary, an unticked one removes its key. A click between runs writes
 * the checkbox state.
 */
module Selection {
  import opened Wrappers
  import opened Strings
  import opened Seqs
  import opened Table

  /**
   * One checkbox of a render loop: its key and the record a tick stores,
   * `None` when building the record raises (the run stops there).
   */
  datatype Entry = Entry(key: string, rec: Option<Record>)

  function EntryKey(e: Entry): string
  {
    e.key
  }

  /** The session: the keys of `selected_items` in insertion order, its entries, and the checkbox states. */
  datatype Store = Store(order: seq<string>, items: map<string, Record>, checks: map<string, bool>)
  {
    /** `order` lists every key of `items` once. */
    ghost predicate Valid()
    {
      Distinct(order) && forall k :: k in items <==> k in order
    }
  }

  /** `order` without `k`, the rest in order. */
  function Remove(order: seq<string>, k: string): (r: seq<string>)
    ensures forall j :: j in r <==> j in order && j != k
    ensures IsSubseq(r, order)
    ensures Distinct(order) ==> Distinct(r)
    ensures k !in order ==> r == order
    decreases |order|
  {
    if order == [] then []
    else
      var init, last := order[..|order| - 1], order[|order| - 1];
      var rest := Remove(init, k);
      assert order == init + [last];
      DistinctInit(order);
      if last == k then rest
      else
        DistinctSnoc(rest, last);
        assert (rest + [last])[..|rest|] == rest;
        rest + [last]
  }

  lemma DistinctInit(s: seq<string>)
    requires s != []
    ensures Distinct(s) ==> s[|s| - 1] !in s[..|s| - 1] && Distinct(s[..|s| - 1])
  {
  }

  lemma DistinctSnoc(s: seq<string>, x: string)
    ensures x !in s && Distinct(s) ==> Distinct(s + [x])
  {
    var c := s + [x];
    assert forall i :: 0 <= i < |s| ==> c[i] == s[i] && c[i] in s;
  }

  /** `selected_items[k] = r`: a new key goes to the end, an old one keeps its place. */
  function Put(s: Store, k: string, r: Record): (t: Store)
    requires s.Valid()
    ensures t.Valid()
    ensures t.items == s.items[k := r] && t.checks == s.checks
    ensures k in s.items ==> t.order == s.order
    ensures k !in s.items ==> t.order == s.order + [k]
  {
    if k in s.items then s.(items := s.items[k := r])
    else
      DistinctSnoc(s.order, k);
      s.(order := s.order + [k], items := s.items[k := r])
  }

  /** `selected_items.pop(k, None)`: `k` is gone, the other keys keep their records and their order. */
  function Pop(s: Store, k: string): (t: Store)
    requires s.Valid()
    ensures t.Valid()
    ensures t.items == s.items - {k} && t.checks == s.checks
    ensures IsSubseq(t.order, s.order) && k !in t.order
    ensures k !in s.items ==> t == s
  {
    s.(order := Remove(s.order, k), items := s.items - {k})
  }

  /** What the checkbox of `k` shows: its stored state, else whether `k` is selected. */
  function Ticked(s: Store, k: string): (b: bool)
    ensures k in s.checks ==> b == s.checks[k]
    ensures s.Valid() && k !in s.checks ==> (b <==> k in s.order)
  {
    if k in s.checks then s.checks[k] else k in s.items
  }

  /**
   * Drawing one checkbox. Its state is recorded; ticked, its record is
   * inserted or overwritten; unticked, its key is removed (nothing happens
   * when it is absent). A ticked box whose record cannot be built fails after
   * the state is recorded. No other key changes.
   */
  function Shown(s: Store, e: Entry): (res: (Store, bool))
    requires s.Valid()
    ensures res.0.Valid()
    ensures res.0.checks == s.checks[e.key := Ticked(s, e.key)]
    ensures res.1 <==> !Ticked(s, e.key) || e.rec.Some?
    ensures Ticked(s, e.key) && e.rec.Some? ==> res.0.items == s.items[e.key := e.rec.value]
    ensures Ticked(s, e.key) && e.rec.None? ==> res.0.items == s.items
    ensures !Ticked(s, e.key) ==> res.0.items == s.items - {e.key}
    ensures Ticked(s, e.key) && e.key in s.items ==> res.0.order == s.order
    ensures Ticked(s, e.key) && e.rec.None? ==> res.0.order == s.order
    ensures Ticked(s, e.key) && e.rec.Some? && e.key !in s.items ==> res.0.order == s.order + [e.key]
    ensures !Ticked(s, e.key) ==> res.0.order == Remove(s.order, e.key)
  {
    var b := Ticked(s, e.key);
    var t := s.(checks := s.checks[e.key := b]);
    if !b then (Pop(t, e.key), true)
    else if e.rec.Some? then (Put(t, e.key, e.rec.value), true)
    else (t, false)
  }

  /** Drawing the same checkbox twice in a row changes nothing more than drawing it once. */
  lemma ShownTwice(s: Store, e: Entry)
    requires s.Valid()
    ensures Shown(Shown(s, e).0, e) == Shown(s, e)
  {
    var t := Shown(s, e).0;
    assert Ticked(t, e.key) == Ticked(s, e.key);
    assert t.checks[e.key := Ticked(t, e.key)] == t.checks;
    if !Ticked(s, e.key) {
      assert e.key !in t.order;
      assert t.items - {e.key} == t.items;
    } else if e.rec.Some? {
      assert t.items[e.key := e.rec.value] == t.items;
    }
  }

  /**
   * A script run's render loop: the checkboxes drawn in order, stopping at
   * the first that fails; `false` when one failed.
   */
  function Rendered(s: Store, es: seq<Entry>): (res: (Store, bool))
    requires s.Valid()
    ensures res.0.Valid()
    decreases |es|
  {
    if es == [] then (s, true)
    else
      var first := Shown(s, es[0]);
      if !first.1 then first else Rendered(first.0, es[1..])
  }

  /** `s` and `t` agree on the selection and the checkbox state of `k`. */
  ghost predicate AgreeOn(s: Store, t: Store, k: string)
  {
    && (k in s.items <==> k in t.items)
    && (k in s.items ==> s.items[k] == t.items[k])
    && (k in s.checks <==> k in t.checks)
    && (k in s.checks ==> s.checks[k] == t.checks[k])
  }

  /** A render loop leaves the keys it does not draw as they were. */
  lemma {:induction false} RenderedFrame(s: Store, es: seq<Entry>, k: string)
    requires s.Valid()
    requires forall i :: 0 <= i < |es| ==> es[i].key != k
    ensures AgreeOn(s, Rendered(s, es).0, k)
    decreases |es|
  {
    if es != [] {
      var first := Shown(s, es[0]);
      if first.1 {
        RenderedFrame(first.0, es[1..], k);
      }
    }
  }

  /** A checkbox whose state already agrees with the selection changes nothing. */
  lemma ShownSettled(t: Store, e: Entry)
    requires t.Valid()
    requires e.key in t.checks
    requires t.checks[e.key] ==> e.rec.Some? && e.key in t.items && t.items[e.key] == e.rec.value
    requires !t.checks[e.key] ==> e.key !in t.items
    ensures Shown(t, e) == (t, true)
  {
    assert t.checks[e.key := t.checks[e.key]] == t.checks;
    if t.checks[e.key] {
      assert t.items[e.key := e.rec.value] == t.items;
    } else {
      assert t.items - {e.key} == t.items;
    }
  }

  /**
   * The UI library reruns a script on every interaction: with no click in
   * between, a second run of a render loop whose keys are distinct leaves
   * the session exactly as the first left it.
   */
  lemma {:induction false} RerunIsStable(s: Store, es: seq<Entry>)
    requires s.Valid()
    requires DistinctKeys(es, EntryKey)
    ensures Rendered(Rendered(s, es).0, es) == Rendered(s, es)
    decreases |es|
  {
    if es != [] {
      var e := es[0];
      var first := Shown(s, e);
      if !first.1 {
        ShownTwice(s, e);
      } else {
        var rest := es[1..];
        assert DistinctKeys(rest, EntryKey) by {
          forall i, j | 0 <= i < j < |rest| ensures rest[i].key != rest[j].key {
            assert rest[i] == es[i + 1] && rest[j] == es[j + 1];
          }
        }
        assert forall i :: 0 <= i < |rest| ==> rest[i].key != e.key by {
          forall i | 0 <= i < |rest| ensures rest[i].key != e.key {
            assert rest[i] == es[i + 1] && EntryKey(es[0]) != EntryKey(es[i + 1]);
          }
        }
        var t := Rendered(first.0, rest);
        RerunIsStable(first.0, rest);
        RenderedFrame(first.0, rest, e.key);
        ShownSettled(t.0, e);
      }
    }
  }

  /** With every record buildable, a render loop never fails. */
  lemma {:induction false} RenderedSucceeds(s: Store, es: seq<Entry>)
    requires s.Valid()
    requires forall i :: 0 <= i < |es| ==> es[i].rec.Some?
    ensures Rendered(s, es).1
    decreases |es|
  {
    if es != [] {
      RenderedSucceeds(Shown(s, es[0]).0, es[1..]);
    }
  }

  // ---------------------------------------------------------------- reset

  /** The keys of the scripts' own checkboxes. */
  predicate IsWidgetKey(k: string)
  {
    StartsWith(k, "item_") || StartsWith(k, "plant_")
  }

  /**
   * The "重新查詢/整理彙總" (query again / tidy up) button: the selection is
   * emptied and every checkbox state under an `item_` or `plant_` key is set
   * to unticked; other states are kept.
   */
  function ResetState(s: Store): (t: Store)
    ensures t.Valid() && t.items == map[]
    ensures t.checks.Keys == s.checks.Keys
    ensures forall k :: k in s.checks ==> t.checks[k] == (s.checks[k] && !IsWidgetKey(k))
  {
    Store([], map[], map k | k in s.checks :: if IsWidgetKey(k) then false else s.checks[k])
  }

  /** Nothing is selected and every `item_`/`plant_` checkbox is unticked. */
  ghost predicate Cleared(s: Store)
  {
    s.Valid() && s.items == map[] && forall k :: k in s.checks && IsWidgetKey(k) ==> !s.checks[k]
  }

  /** After a reset, render loops over the scripts' own checkboxes select nothing. */
  lemma {:induction false} ClearedStaysEmpty(s: Store, es: seq<Entry>)
    requires Cleared(s)
    requires forall i :: 0 <= i < |es| ==> IsWidgetKey(es[i].key)
    ensures Cleared(Rendered(s, es).0) && Rendered(s, es).1
    decreases |es|
  {
    if es != [] {
      var first := Shown(s, es[0]);
      assert !Ticked(s, es[0].key);
      assert first.0.items == map[];
      ClearedStaysEmpty(first.0, es[1..]);
    }
  }

  lemma ResetClears(s: Store)
    ensures Cleared(ResetState(s))
  {
  }

  // ---------------------------------------------------------------- values

  /** `selected_items.values()`, in insertion order. */
  function Values(s: Store): (v: seq<Record>)
    requires s.Valid()
    ensures |v| == |s.order|
    ensures forall i :: 0 <= i < |v| ==> v[i] == s.items[s.order[i]]
    ensures forall r :: r in v <==> exists k :: k in s.items && s.items[k] == r
  {
    var v := seq(|s.order|, i requires 0 <= i < |s.order| => s.items[s.order[i]]);
    forall k | k in s.items ensures s.items[k] in v {
      var i :| 0 <= i < |s.order| && s.order[i] == k;
      assert v[i] == s.items[k];
    }
    v
  }

  // ---------------------------------------------------------------- the session object

  class Session {
    var order: seq<string>
    var items: map<string, Record>
    var checks: map<string, bool>

    function Value(): Store
      reads this
    {
      Store(order, items, checks)
    }

    ghost predicate Valid()
      reads this
    {
      Value().Valid()
    }

    /** A new session: nothing selected, no checkbox state. */
    constructor ()
      ensures Valid() && Value() == Store([], map[], map[])
    {
      order, items, checks := [], map[], map[];
    }

    /** The user ticks or unticks the checkbox of `key` between two runs. */
    method Click(key: string, value: bool)
      requires Valid()
      modifies this
      ensures Valid()
      ensures Value() == old(Value()).(checks := old(checks)[key := value])
    {
      checks := checks[key := value];
    }

    /** One iteration of a render loop. */
    method Show(e: Entry) returns (ok: bool)
      requires Valid()
      modifies this
      ensures Valid()
      ensures (Value(), ok) == Shown(old(Value()), e)
    {
      var b := if e.key in checks then checks[e.key] else e.key in items;
      checks := checks[e.key := b];
      if !b {
        if e.key in items {
          order := Remove(order, e.key);
          items := items - {e.key};
        } else {
          assert items - {e.key} == items;
        }
        ok := true;
      } else if e.rec.Some? {
        if e.key !in items {
          order := order + [e.key];
        }
        items := items[e.key := e.rec.value];
        ok := true;
      } else {
        ok := false;
      }
    }

    /** A render loop: `for ... in view: if st.checkbox(...): ... else: ...pop(...)`. */
    method Render(es: seq<Entry>) returns (ok: bool)
      requires Valid()
      modifies this
      ensures Valid()
      ensures (Value(), ok) == Rendered(old(Value()), es)
    {
      var i := 0;
      while i < |es|
        invariant 0 <= i <= |es| && Valid()
        invariant Rendered(old(Value()), es) == Rendered(Value(), es[i..])
      {
        assert es[i..][1..] == es[i + 1..];
        ok := Show(es[i]);
        if !ok {
          return;
        }
        i := i + 1;
      }
      ok := true;
    }

    /** `selected_items = {}`, as when the column mapping is confirmed again. */
    method ClearSelection()
      requires Valid()
      modifies this
      ensures Valid()
      ensures Value() == old(Value()).(order := [], items := map[])
    {
      order, items := [], map[];
    }

    /** The reset button: `selected_items = {}`, then every `item_`/`plant_` state set to False. */
    method Reset()
      requires Valid()
      modifies this
      ensures Valid()
      ensures Value() == ResetState(old(Value()))
    {
      order, items := [], map[];
      var todo := checks.Keys;
      ghost var before := checks;
      while todo != {}
        invariant order == [] && items == map[]
        invariant todo <= before.Keys && checks.Keys == before.Keys
        invariant forall k :: k in before && k !in todo ==> checks[k] == (before[k] && !IsWidgetKey(k))
        invariant forall k :: k in todo ==> checks[k] == before[k]
        decreases |todo|
      {
        var k :| k in todo;
        if IsWidgetKey(k) {
          checks := checks[k := false];
        }
        todo := todo - {k};
      }
      assert checks == ResetState(old(Value())).checks;
    }
  }
}

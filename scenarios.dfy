/**
 * Client programs over the live parameters: a parameter following its
 * backing file, save and restore, reloading, registration under a taken
 * name, the process-wide bag, and what destroying a registered parameter
 * does to the registry.
 */
module Scenarios {
  import opened Wrappers
  import opened Text
  import opened Codec
  import opened Live

  /** A document holding the given entries under "params", as save lays it out. */
  function ParamsDocument(entries: seq<Node>): (doc: Node)
    ensures ParamEntries(doc) == Some(entries)
  {
    Array("", [Array("params", entries)])
  }

  /** A fresh bag, without a backing file yet, with one fresh parameter registered under name. */
  method Registered(name: string, initial: Value, fn: CallbackId) returns (b: Bag, p: Cell)
    ensures fresh(b) && fresh(p) && b.Valid() && b.cells == {p}
    ensures b.items == map[name := p] && b.file == Present(None)
    ensures p.kind == KindOf(initial) && p.View() == CellView(initial, []) && p.updateFn == Some(fn)
  {
    p := new Cell(initial);
    b := new Bag(Missing);
    b.Add(p, name, fn);
  }

  /** The edited file of FrictionFollowsTheFile: an unknown name, then friction at 0.5. */
  function EditedEntries(ft: FloatText): seq<Node> {
    [Scalar("gravity", "9"), Scalar("friction", ft.show(0.5))]
  }

  /**
   * The edited file, loaded into a registry holding only friction: gravity
   * is reported as unknown; the load runs to the end when the text of 0.5
   * converts back, and otherwise throws at the friction entry.
   */
  lemma EditedEntriesRun(friction: Cell, ft: FloatText)
    requires friction.kind == Float
    ensures var items := map["friction" := friction];
      var n := FirstFailure(items, EditedEntries(ft), ft);
      && n == (if ft.parse(ft.show(0.5)).Some? then 2 else 1)
      && UnknownKeys(items, EditedEntries(ft)[..n]) == ["gravity"]
  {
    var items := map["friction" := friction];
    var es := EditedEntries(ft);
    assert "gravity" !in items;
    assert es[..1] == [es[0]] && es[..1][..0] == [] && es[..2] == es;
    UnknownKeysStep(items, es, 0);
    UnknownKeysStep(items, es, 1);
    FirstFailureStep(items, es, 0, ft);
    FirstFailureNext(items, es, 1, Fails(items, es[1], ft), ft);
  }

  /** friction's view after a load of the edited file, from 0.9 with callback 7: the value the text of 0.5 reads as, if any. */
  function FrictionLoaded(ft: FloatText): CellView {
    var start := CellView(FloatV(0.9), []);
    match ft.parse(ft.show(0.5))
    case None => start
    case Some(x) => Updated(start, 7, FloatV(x))
  }

  /**
   * The edited file updates friction to what the text of 0.5 reads as, with
   * at most one callback (exactly one when it reads as 0.5), and loading it
   * again is quiet.
   */
  lemma EditedEntriesReplay(friction: Cell, ft: FloatText)
    requires friction.kind == Float
    ensures var items := map["friction" := friction];
      var es := EditedEntries(ft);
      var d := Dispatched(items, friction, es[..FirstFailure(items, es, ft)]);
      var once := Replay(CellView(FloatV(0.9), []), 7, Float, d, ft);
      && once == FrictionLoaded(ft)
      && (ft.parse(ft.show(0.5)) == Some(0.5) ==> once == CellView(FloatV(0.5), [7]))
      && Replay(once, 7, Float, d, ft) == once
  {
    var items := map["friction" := friction];
    var es := EditedEntries(ft);
    EditedEntriesRun(friction, ft);
    if ft.parse(ft.show(0.5)).Some? {
      var x := ft.parse(ft.show(0.5)).value;
      assert es[..2] == es;
      EditedEntriesDispatch(items, friction, es);
      assert Decoded(Float, es[1], ft) == Some(FloatV(x));
      assert [es[1]][..0] == [];
      UpdatedIdempotent(CellView(FloatV(0.9), []), 7, FloatV(x));
    } else {
      assert es[..1] == [es[0]] && [es[0]][..0] == [];
      DispatchedStep(items, friction, [es[0]], 0);
    }
  }

  lemma EditedEntriesDispatch(items: map<string, Cell>, friction: Cell, es: seq<Node>)
    requires |es| == 2 && es[0].key !in items && es[1].key in items && items[es[1].key] == friction
    ensures Dispatched(items, friction, es) == [es[1]]
  {
    assert es[..1] == [es[0]] && es[..1][..0] == [] && es[..2] == es;
    DispatchedStep(items, friction, es, 0);
    DispatchedStep(items, friction, es, 1);
  }

  /** load on a bag holding one parameter p: p ends as loading the applied entries into it gives. */
  method LoadSingle(b: Bag, name: string, p: Cell, ft: FloatText) returns (unknown: seq<string>)
    requires b.Valid() && b.items == map[name := p]
    modifies b.items.Values`value, b.items.Values`calls
    ensures b.Valid() && b.items == map[name := p] && p.updateFn.Some?
    ensures p.View() == Replay(old(p.View()), p.updateFn.value, p.kind, Dispatched(b.items, p, Applied(b.file, b.items, ft)), ft)
    ensures unknown == UnknownKeys(b.items, Applied(b.file, b.items, ft))
  {
    ghost var start := b.Views();
    assert start[name] == p.View();
    var outcome;
    outcome, unknown := b.Load(ft);
  }

  /** friction saved at 0.9, then its file edited by hand into EditedEntries. */
  method SavedThenEdited(ft: FloatText) returns (b: Bag, friction: Cell)
    ensures fresh(b) && fresh(friction) && b.Valid() && b.cells == {friction}
    ensures b.items == map["friction" := friction] && friction.updateFn == Some(7)
    ensures friction.kind == Float && friction.View() == CellView(FloatV(0.9), [])
    ensures Applied(b.file, b.items, ft) == EditedEntries(ft)[..FirstFailure(b.items, EditedEntries(ft), ft)]
  {
    b, friction := Registered("friction", FloatV(0.9), 7);
    b.Save(ft);
    b.file := Present(Some(ParamsDocument(EditedEntries(ft))));
  }

  /**
   * A float parameter saved at 0.9, whose file is then edited to 0.5 and an
   * unknown name: the first load takes what the text of 0.5 reads as (0.5
   * itself, with one callback, when the float text round-trips; nothing,
   * when it does not convert and the load throws) and reports the unknown
   * name; a second load changes nothing.
   */
  method FrictionFollowsTheFile(ft: FloatText) returns (first: CellView, second: CellView, unknown: seq<string>)
    ensures first == FrictionLoaded(ft)
    ensures ft.parse(ft.show(0.5)) == Some(0.5) ==> first == CellView(FloatV(0.5), [7])
    ensures ft.parse(ft.show(0.5)).None? ==> first == CellView(FloatV(0.9), [])
    ensures second == first
    ensures unknown == ["gravity"]
  {
    var b, friction := SavedThenEdited(ft);
    EditedEntriesRun(friction, ft);
    EditedEntriesReplay(friction, ft);
    unknown := LoadSingle(b, "friction", friction, ft);
    first := friction.View();
    var _ := LoadSingle(b, "friction", friction, ft);
    second := friction.View();
  }

  /** Reloading a saved document into the registry it was saved from, holding one parameter p of a loadable kind. */
  lemma SavedSingleReloads(name: string, p: Cell, v: Value, doc: Node, s: CellView, fn: CallbackId, ft: FloatText)
    requires ReadsBack(ft, Floats(v)) && p.kind == KindOf(v) && p.kind != Other
    requires IsSavedDocument(doc, map[name := v], ft)
    ensures var d := Applied(Present(Some(doc)), map[name := p], ft);
      Replay(s, fn, p.kind, Dispatched(map[name := p], p, d), ft) == Updated(s, fn, v)
  {
    var es := doc.children[0].children;
    SavedEntriesReload(map[name := p], map[name := v], es, name, s, fn, ft);
    assert es[..|es|] == es;
  }

  /**
   * A fresh bag with one parameter registered under name and saved: loading
   * the file brings the parameter back to initial, from any state.
   */
  method RegisteredAndSaved(name: string, initial: Value, fn: CallbackId, ft: FloatText) returns (b: Bag, p: Cell)
    requires ReadsBack(ft, Floats(initial)) && KindOf(initial) != Other
    ensures fresh(b) && fresh(p) && b.Valid() && b.cells == {p}
    ensures b.items == map[name := p]
    ensures p.kind == KindOf(initial) && p.View() == CellView(initial, []) && p.updateFn == Some(fn)
    ensures forall s :: Replay(s, fn, p.kind, Dispatched(b.items, p, Applied(b.file, b.items, ft)), ft) == Updated(s, fn, initial)
  {
    b, p := Registered(name, initial, fn);
    b.Save(ft);
    assert b.Snapshot() == map[name := initial];
    forall s {
      SavedSingleReloads(name, p, initial, b.file.doc.value, s, fn, ft);
    }
  }

  /**
   * Save, then overwrite the value with operator= (no callback), then load:
   * the saved value is back, and its callback has fired once.
   */
  method SaveResetLoad(ft: FloatText) returns (restored: CellView)
    ensures restored == CellView(IntV(3), [1])
  {
    var b, count := RegisteredAndSaved("count", IntV(3), 1, ft);
    count.Assign(IntV(0));
    var _ := LoadSingle(b, "count", count, ft);
    restored := count.View();
  }

  /** load, with the registry's new views read off its contract. */
  method LoadAll(b: Bag, ft: FloatText)
    requires b.Valid()
    modifies b.items.Values`value, b.items.Values`calls
    ensures b.Valid() && b.items == old(b.items) && b.Callbacks() == old(b.Callbacks())
    ensures b.Views() == LoadedViews(b.items, b.Callbacks(), old(b.Views()), Applied(b.file, b.items, ft), ft)
  {
    ghost var start := b.Views();
    LoadKeeping(b, ft);
    b.ReplayedViews(start, Applied(b.file, b.items, ft), ft);
  }

  /** load leaves the registry and its callbacks as they were, and replays the applied entries. */
  method LoadKeeping(b: Bag, ft: FloatText)
    requires b.Valid()
    modifies b.items.Values`value, b.items.Values`calls
    ensures b.Valid() && b.items == old(b.items) && b.Callbacks() == old(b.Callbacks())
    ensures b.Replayed(old(b.Views()), Applied(b.file, b.items, ft), ft)
  {
    var _, _ := b.Load(ft);
  }

  /**
   * Two loads of an unchanged file whose entries agree for every cell: the
   * second changes no value and fires no callback.
   */
  method LoadTwice(b: Bag, ft: FloatText) returns (ghost afterFirst: map<string, CellView>)
    requires b.Valid()
    requires Unambiguous(b.items, Applied(b.file, b.items, ft), ft)
    modifies b.items.Values`value, b.items.Values`calls
    ensures b.Valid() && b.Views() == afterFirst
    ensures afterFirst == LoadedViews(b.items, b.Callbacks(), old(b.Views()), Applied(b.file, b.items, ft), ft)
  {
    LoadedTwice(b.items, b.Callbacks(), b.Views(), Applied(b.file, b.items, ft), ft);
    LoadAll(b, ft);
    afterFirst := b.Views();
    LoadAll(b, ft);
  }

  /**
   * Registering a second parameter under a taken name keeps the first; the
   * second still gets the bag as owner, and destroying it leaves the first
   * registered (its target matches no entry).
   */
  method FirstRegistrationWins() returns (b: Bag, p: Cell, q: Cell)
    ensures b.items == map["speed" := p]
    ensures q.owner == b && q.updateFn == Some(2)
  {
    p := new Cell(FloatV(1.0));
    q := new Cell(FloatV(2.0));
    b := new Bag(Missing);
    b.Add(p, "speed", 1);
    b.Add(q, "speed", 2);
    q.Destroy();
  }

  /** Every call of live::bag() returns the same bag. */
  method SingletonIsShared(disk: BackingFile) returns (first: Bag, second: Bag)
    ensures first == second && first.file == Created(disk)
  {
    var process := new Process();
    first := process.Instance(disk);
    second := process.Instance(Missing);
  }

  /**
   * As written: Param() never sets its target, so a registered parameter
   * made by the default constructor asks for nothing to be removed when it
   * is destroyed, and its entry stays in the registry.
   */
  method DefaultCellOutlivesDestroy() returns (b: Bag, p: Cell)
    ensures b.items == map["flag" := p]
  {
    p := new Cell.Default(BoolV(false));
    b := new Bag(Missing);
    b.Add(p, "flag", 1);
    p.Destroy();
  }

  /**
   * Corrected: a parameter whose target is its own value is removed from
   * the registry when it is destroyed.
   */
  method TargetedCellLeavesOnDestroy() returns (b: Bag)
    ensures b.items == map[]
  {
    var p := new Cell(BoolV(false));
    b := new Bag(Missing);
    b.Add(p, "flag", 1);
    p.Destroy();
  }

  /**
   * Corrected, through the process-wide bag as JsonBag::add registers: a
   * parameter whose target is its own value leaves the singleton's registry
   * when it is destroyed.
   */
  method SingletonCellLeavesOnDestroy() returns (pr: Process)
    ensures pr.instance != null && pr.instance.items == map[]
  {
    pr := new Process();
    var p := new Cell(BoolV(false));
    pr.Add(p, "flag", 1, Missing);
    p.Destroy();
  }
}

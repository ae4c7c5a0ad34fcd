/**
 * Live parameters and their registry: Param<T> (here Cell, one class over
 * the closed set of kinds), JsonBag (here Bag) and the live::bag()
 * singleton accessor (here Process.Instance).
 *
 * A change callback is known by its identity; every invocation is appended
 * to the cell's `calls` log. A cell's identity for deregistration (the
 * source's void* target) is the cell itself, or null when it was never set.
 */
module Live {
  import opened Wrappers
  import opened Text
  import opened Codec

  type CallbackId = nat

  /** What can be observed of a cell: its value and the callbacks fired so far. */
  datatype CellView = CellView(value: Value, calls: seq<CallbackId>)

  /** The backing file: absent, or present and either parsing to a document or not. */
  datatype BackingFile = Missing | Present(doc: Option<Node>)

  /** How JsonBag::load ended. Threw is an exception the parse-error handler does not catch. */
  datatype LoadOutcome = NoFile | ParseFailed | Threw(error: DocError) | Loaded

  // ------------------------------------------------------------ update

  /**
   * Param<T>::update on the observable state: a different value is stored
   * and the callback fires exactly once; an equal value changes nothing.
   */
  function Updated(s: CellView, fn: CallbackId, v: Value): (r: CellView)
    ensures v == s.value ==> r == s
    ensures v != s.value ==> r.value == v && r.calls == s.calls + [fn]
  {
    if s.value != v then CellView(v, s.calls + [fn]) else s
  }

  /** Applying the same value twice is the same as applying it once. */
  lemma UpdatedIdempotent(s: CellView, fn: CallbackId, v: Value)
    ensures Updated(Updated(s, fn, v), fn, v) == Updated(s, fn, v)
  {
  }

  /** Param<T>::load on one entry: decode, then update with the decoded value, if any. */
  function Step(s: CellView, fn: CallbackId, k: Kind, e: Node, ft: FloatText): CellView {
    match Decoded(k, e, ft)
    case None => s
    case Some(v) => Updated(s, fn, v)
  }

  // ------------------------------------------------------------ cells

  class Cell {
    const kind: Kind
    var value: Value
    var updateFn: Option<CallbackId>
    var calls: seq<CallbackId>
    var owner: Bag?
    var target: Cell?

    /** The value has the cell's type (the type system's guarantee for Param<T>). */
    ghost predicate Valid()
      reads this
    {
      KindOf(value) == kind
    }

    function View(): CellView
      reads this
    {
      CellView(value, calls)
    }

    /** Param(): the value is T() (given here as initial), and the target is never set. */
    constructor Default(initial: Value)
      ensures Valid() && kind == KindOf(initial) && value == initial
      ensures updateFn == None && calls == [] && owner == null && target == null
    {
      kind := KindOf(initial);
      value := initial;
      updateFn := None;
      calls := [];
      owner := null;
      target := null;
    }

    /** Param(T value): the target is the cell's own value, so the cell itself. */
    constructor (initial: Value)
      ensures Valid() && kind == KindOf(initial) && value == initial
      ensures updateFn == None && calls == [] && owner == null && target == this
    {
      kind := KindOf(initial);
      value := initial;
      updateFn := None;
      calls := [];
      owner := null;
      new;
      target := this;
    }

    /** setUpdateFn: replaces the callback. */
    method SetUpdateFn(fn: CallbackId)
      modifies this`updateFn
      ensures updateFn == Some(fn)
    {
      updateFn := Some(fn);
    }

    /** setOwner. */
    method SetOwner(b: Bag?)
      modifies this`owner
      ensures owner == b
    {
      owner := b;
    }

    /** operator=: stores the value without change detection; no callback fires. */
    method Assign(v: Value)
      requires Valid() && KindOf(v) == kind
      modifies this`value
      ensures Valid() && value == v
    {
      value := v;
    }

    /** update: stores v and fires the callback once if v differs from the current value. */
    method Update(v: Value)
      requires Valid() && KindOf(v) == kind && updateFn.Some?
      modifies this`value, this`calls
      ensures Valid()
      ensures View() == Updated(old(View()), updateFn.value, v)
    {
      if value != v {
        value := v;
        calls := calls + [updateFn.value];
      }
    }

    /**
     * load: decodes the entry by the cell's kind and passes the value to
     * update; a kind without a load specialisation does nothing. A decoding
     * failure is returned (the source throws) and leaves the cell as it was.
     */
    method Load(e: Node, ft: FloatText) returns (err: Option<DocError>)
      requires Valid() && updateFn.Some?
      modifies this`value, this`calls
      ensures Valid()
      ensures err.Some? <==> Decode(kind, e, ft).Failure?
      ensures err.Some? ==> err.value == Decode(kind, e, ft).error && View() == old(View())
      ensures View() == Step(old(View()), updateFn.value, kind, e, ft)
    {
      var d := Decode(kind, e, ft);
      match d
      case Failure(x) =>
        err := Some(x);
      case Success(None) =>
        err := None;
      case Success(Some(v)) =>
        Update(v);
        err := None;
    }

    /**
     * ~ParamBase: a cell with an owner asks it, once, to remove the entry
     * whose target is this cell's target; a cell without one touches no
     * registry.
     */
    method Destroy()
      modifies owner
      ensures owner != null ==> RemovesEntryFor(old(owner.items), owner.items, target)
      ensures owner != null ==> owner.file == old(owner.file) && owner.cells == old(owner.cells)
    {
      if owner != null {
        var _ := owner.RemoveTarget(target);
      }
    }
  }

  // ------------------------------------------------------------ registry specification

  /**
   * removeTarget's effect: when some entry's target is t (and t is not
   * null), exactly one such entry is erased; otherwise nothing changes.
   */
  ghost predicate RemovesEntryFor(before: map<string, Cell>, after: map<string, Cell>, t: Cell?)
    reads before.Values
  {
    if t != null && exists k :: k in before && before[k].target == t
    then exists k :: k in before && before[k].target == t && after == before - {k}
    else after == before
  }

  /** The file the constructor leaves: an absent file is created empty, which does not parse. */
  function Created(disk: BackingFile): (f: BackingFile)
    ensures f.Present?
    ensures disk.Present? ==> f == disk
  {
    if disk.Missing? then Present(None) else disk
  }

  /** The entries under the document's "params" child, or None when it has none. */
  function ParamEntries(doc: Node): Option<seq<Node>> {
    match Child(doc, "params")
    case None => None
    case Some(p) => Some(Children(p))
  }

  /** An entry whose key is registered and whose decoding throws. */
  predicate Fails(items: map<string, Cell>, e: Node, ft: FloatText) {
    e.key in items && Decode(items[e.key].kind, e, ft).Failure?
  }

  /** The position of the first failing entry, or |es| when none fails. */
  function FirstFailure(items: map<string, Cell>, es: seq<Node>, ft: FloatText): (n: nat)
    ensures n <= |es|
    decreases |es|
  {
    if es == [] then 0
    else
      var n := FirstFailure(items, es[..|es| - 1], ft);
      if n < |es| - 1 then n
      else if Fails(items, es[|es| - 1], ft) then |es| - 1
      else |es|
  }

  /** No entry before the first failure fails, and the entry there does. */
  lemma {:induction false} FirstFailureSpec(items: map<string, Cell>, es: seq<Node>, ft: FloatText)
    ensures var n := FirstFailure(items, es, ft);
      (forall j :: 0 <= j < n ==> !Fails(items, es[j], ft)) && (n < |es| ==> Fails(items, es[n], ft))
    decreases |es|
  {
    if es != [] {
      var init := es[..|es| - 1];
      FirstFailureSpec(items, init, ft);
      var m := FirstFailure(items, init, ft);
      assert forall j :: 0 <= j < m ==> es[j] == init[j];
    }
  }

  /** One more entry after a prefix without failures. */
  lemma FirstFailureStep(items: map<string, Cell>, es: seq<Node>, i: nat, ft: FloatText)
    requires i < |es| && FirstFailure(items, es[..i], ft) == i
    ensures FirstFailure(items, es[..i + 1], ft) == if Fails(items, es[i], ft) then i else i + 1
  {
    assert es[..i + 1][..i] == es[..i];
  }

  /** After a prefix without failures, the next entry is the first failure if it fails. */
  lemma FirstFailureNext(items: map<string, Cell>, es: seq<Node>, i: nat, failed: bool, ft: FloatText)
    requires i < |es| && FirstFailure(items, es[..i], ft) == i && failed == Fails(items, es[i], ft)
    ensures failed ==> FirstFailure(items, es, ft) == i
    ensures !failed ==> FirstFailure(items, es[..i + 1], ft) == i + 1
  {
    FirstFailureStep(items, es, i, ft);
    if failed {
      FirstFailureExtends(items, es, i + 1, ft);
    }
  }

  /** A failure within a prefix is the first failure of the whole. */
  lemma {:induction false} FirstFailureExtends(items: map<string, Cell>, es: seq<Node>, m: nat, ft: FloatText)
    requires m <= |es| && FirstFailure(items, es[..m], ft) < m
    ensures FirstFailure(items, es, ft) == FirstFailure(items, es[..m], ft)
    decreases |es|
  {
    if m < |es| {
      var init := es[..|es| - 1];
      assert init[..m] == es[..m];
      FirstFailureExtends(items, init, m, ft);
    } else {
      assert es[..m] == es;
    }
  }

  /** The entries a load of file runs to completion: all of them up to the first that throws. */
  function Applied(file: BackingFile, items: map<string, Cell>, ft: FloatText): seq<Node> {
    if file.Missing? || file.doc.None? then []
    else match ParamEntries(file.doc.value)
      case None => []
      case Some(es) => es[..FirstFailure(items, es, ft)]
  }

  /** How a load of file ends. */
  function Outcome(file: BackingFile, items: map<string, Cell>, ft: FloatText): LoadOutcome {
    if file.Missing? then NoFile
    else if file.doc.None? then ParseFailed
    else match ParamEntries(file.doc.value)
      case None => Threw(ChildNotFound("params"))
      case Some(es) =>
        var n := FirstFailure(items, es, ft);
        if n < |es| then
          FirstFailureSpec(items, es, ft);
          Threw(Decode(items[es[n].key].kind, es[n], ft).error)
        else Loaded
  }

  /**
   * The views the cells of items reach when d is loaded from the views
   * init, each name's cell having the callback fns gives.
   */
  ghost function LoadedViews(items: map<string, Cell>, fns: map<string, CallbackId>, init: map<string, CellView>,
                             d: seq<Node>, ft: FloatText): map<string, CellView> {
    map k | k in items && k in fns && k in init :: Replay(init[k], fns[k], items[k].kind, Dispatched(items, items[k], d), ft)
  }

  /** The entries of es that are sent to cell c: those whose key is registered to c. */
  function Dispatched(items: map<string, Cell>, c: Cell, es: seq<Node>): (r: seq<Node>)
    decreases |es|
  {
    if es == [] then []
    else
      var last := es[|es| - 1];
      Dispatched(items, c, es[..|es| - 1]) + (if last.key in items && items[last.key] == c then [last] else [])
  }

  /** The keys of es that name no registered cell, in order (the "No item named" diagnostics). */
  function UnknownKeys(items: map<string, Cell>, es: seq<Node>): (r: seq<string>)
    decreases |es|
  {
    if es == [] then []
    else
      var last := es[|es| - 1];
      UnknownKeys(items, es[..|es| - 1]) + (if last.key in items then [] else [last.key])
  }

  /**
   * A cell's state after the entries es have been loaded into it one after
   * the other. The callback log only grows, by the cell's own callback, at
   * most once per entry.
   */
  function Replay(s: CellView, fn: CallbackId, k: Kind, es: seq<Node>, ft: FloatText): (r: CellView)
    ensures |s.calls| <= |r.calls| <= |s.calls| + |es|
    ensures r.calls[..|s.calls|] == s.calls
    ensures forall i :: |s.calls| <= i < |r.calls| ==> r.calls[i] == fn
    decreases |es|
  {
    if es == [] then s
    else Step(Replay(s, fn, k, es[..|es| - 1], ft), fn, k, es[|es| - 1], ft)
  }

  // ------------------------------------------------------------ registry

  class Bag {
    var items: map<string, Cell>
    var file: BackingFile
    /** Every cell ever registered: the registry's footprint. */
    ghost var cells: set<Cell>

    /**
     * Every registered cell holds a value of its kind, has a callback (add
     * sets one) and has this bag as its owner.
     */
    ghost predicate Valid()
      reads this, cells
    {
      forall k :: k in items ==> items[k] in cells && items[k].Valid() && items[k].updateFn.Some? && items[k].owner == this
    }

    /** The registered values by name. */
    function Snapshot(): (m: map<string, Value>)
      reads this, items.Values
      ensures m.Keys == items.Keys
    {
      map k | k in items :: items[k].value
    }

    /** JsonBag(): an absent backing file is created empty; no entries yet. */
    constructor (disk: BackingFile)
      ensures Valid() && items == map[] && file == Created(disk) && cells == {}
    {
      items := map[];
      file := Created(disk);
      cells := {};
    }

    /**
     * add: p gets this bag as owner and fn as callback in any case; the
     * entry key -> p is inserted only if key is not registered yet
     * (emplace keeps an existing entry).
     */
    method Add(p: Cell, key: string, fn: CallbackId)
      requires Valid() && p.Valid()
      modifies this`items, this`cells, p`owner, p`updateFn
      ensures Valid()
      ensures p.owner == this && p.updateFn == Some(fn)
      ensures items == if key in old(items) then old(items) else old(items)[key := p]
      ensures cells == if key in old(items) then old(cells) else old(cells) + {p}
    {
      p.SetOwner(this);
      p.SetUpdateFn(fn);
      if key !in items {
        items := items[key := p];
        cells := cells + {p};
      }
    }

    /**
     * removeTarget: null is ignored; otherwise the entries are visited in
     * unspecified order and the first whose target is t is erased. found
     * is false when nothing matched (the "Target not found" diagnostic).
     */
    method RemoveTarget(t: Cell?) returns (found: bool)
      modifies this`items
      ensures found <==> t != null && exists k :: k in old(items) && old(items)[k].target == t
      ensures RemovesEntryFor(old(items), items, t)
    {
      if t == null {
        return false;
      }
      var keys := items.Keys;
      while keys != {}
        invariant keys <= items.Keys
        invariant items == old(items)
        invariant forall k :: k in items && k !in keys ==> items[k].target != t
        decreases keys
      {
        var k :| k in keys;
        if items[k].target == t {
          items := items - {k};
          return true;
        }
        keys := keys - {k};
      }
      return false;
    }

    /**
     * The document save writes: one "params" array holding, for every
     * registered name in unspecified order, the node its cell saves.
     */
    method Document(ft: FloatText) returns (doc: Node)
      ensures IsSavedDocument(doc, Snapshot(), ft)
    {
      var entries := SaveEntries(Snapshot(), ft);
      doc := Array("", [Array("params", entries)]);
    }

    /** save: writes the document to the backing file; the registry is unchanged. */
    method Save(ft: FloatText)
      modifies this`file
      ensures file.Present? && file.doc.Some? && IsSavedDocument(file.doc.value, Snapshot(), ft)
    {
      var doc := Document(ft);
      file := Present(Some(doc));
    }

    /**
     * load: nothing happens without a file, or when it does not parse.
     * Otherwise the "params" entries are visited in order; an entry whose
     * name is registered is loaded into that cell, an unknown name is
     * reported and skipped. The first entry whose decoding throws ends the
     * load, with the entries before it already applied.
     */
    method Load(ft: FloatText) returns (outcome: LoadOutcome, unknown: seq<string>)
      requires Valid()
      modifies items.Values`value, items.Values`calls
      ensures Valid() && items == old(items)
      ensures outcome == Outcome(file, items, ft)
      ensures unknown == UnknownKeys(items, Applied(file, items, ft))
      ensures Replayed(old(Views()), Applied(file, items, ft), ft)
      ensures file.Missing? || file.doc.None? ==> Views() == old(Views())
    {
      ghost var init := Views();
      ReplayedStart(init, ft);
      if file.Missing? {
        return NoFile, [];
      }
      if file.doc.None? {
        return ParseFailed, [];
      }
      var params := ParamEntries(file.doc.value);
      if params.None? {
        return Threw(ChildNotFound("params")), [];
      }
      var n, err;
      n, err, unknown := LoadEntries(params.value, init, ft);
      if err.Some? {
        return Threw(err.value), unknown;
      }
      return Loaded, unknown;
    }

    /**
     * The loop of load over the "params" entries es: n entries run to
     * completion, and err is the failure of entry n, if any.
     */
    method LoadEntries(es: seq<Node>, ghost init: map<string, CellView>, ft: FloatText)
      returns (n: nat, err: Option<DocError>, unknown: seq<string>)
      requires Valid() && init.Keys == items.Keys && Replayed(init, [], ft)
      modifies items.Values`value, items.Values`calls
      ensures Valid() && items == old(items)
      ensures n == FirstFailure(items, es, ft)
      ensures err.Some? <==> n < |es|
      ensures err.Some? ==> Fails(items, es[n], ft) && err.value == Decode(items[es[n].key].kind, es[n], ft).error
      ensures unknown == UnknownKeys(items, es[..n])
      ensures Replayed(init, es[..n], ft)
    {
      unknown := [];
      var i := 0;
      while i < |es|
        invariant 0 <= i <= |es|
        invariant items == old(items)
        invariant FirstFailure(items, es[..i], ft) == i
        invariant Valid()
        invariant unknown == UnknownKeys(items, es[..i])
        invariant Replayed(init, es[..i], ft)
      {
        err, unknown := LoadEntry(es, i, init, unknown, ft);
        if err.Some? {
          return i, err, unknown;
        }
        i := i + 1;
      }
      assert es[..|es|] == es;
      return |es|, None, unknown;
    }

    /** Before anything is loaded, every cell is in its initial state. */
    lemma ReplayedStart(init: map<string, CellView>, ft: FloatText)
      requires Valid() && init == Views()
      ensures Replayed(init, [], ft)
    {
    }

    /** The views of the registered cells, by name. */
    ghost function Views(): (m: map<string, CellView>)
      reads this, items.Values
      ensures m.Keys == items.Keys
    {
      map k | k in items :: items[k].View()
    }

    /** The callbacks of the registered cells, by name. */
    ghost function Callbacks(): (m: map<string, CallbackId>)
      reads this`items, items.Values`updateFn
    {
      map k | k in items && items[k].updateFn.Some? :: items[k].updateFn.value
    }

    /** Replayed, read as the views of all registered cells. */
    lemma ReplayedViews(init: map<string, CellView>, d: seq<Node>, ft: FloatText)
      requires Valid() && init.Keys == items.Keys && Replayed(init, d, ft)
      ensures Views() == LoadedViews(items, Callbacks(), init, d, ft)
    {
    }

    /** Every registered cell is in the state loading d into it from init gives. */
    ghost predicate Replayed(init: map<string, CellView>, d: seq<Node>, ft: FloatText)
      requires Valid()
      reads this, cells
    {
      forall k :: k in items && k in init ==>
        items[k].View() == Replay(init[k], items[k].updateFn.value, items[k].kind, Dispatched(items, items[k], d), ft)
    }

    /**
     * One iteration of load: the entry es[i] is loaded into the cell its
     * name is registered to; an unknown name is reported and skipped.
     * Entries before i ran to completion and reported the names unknown.
     */
    method LoadEntry(es: seq<Node>, i: nat, ghost init: map<string, CellView>, unknown: seq<string>, ft: FloatText)
      returns (err: Option<DocError>, reported: seq<string>)
      requires i < |es| && Valid() && FirstFailure(items, es[..i], ft) == i
      requires unknown == UnknownKeys(items, es[..i]) && Replayed(init, es[..i], ft)
      modifies items.Values`value, items.Values`calls
      ensures Valid()
      ensures err.Some? ==> Fails(items, es[i], ft) && err.value == Decode(items[es[i].key].kind, es[i], ft).error
      ensures err.Some? ==> FirstFailure(items, es, ft) == i && reported == unknown && Replayed(init, es[..i], ft)
      ensures err.None? ==> FirstFailure(items, es[..i + 1], ft) == i + 1 && reported == UnknownKeys(items, es[..i + 1])
      ensures err.None? ==> Replayed(init, es[..i + 1], ft)
    {
      var e := es[i];
      UnknownKeysStep(items, es, i);
      if e.key !in items {
        FirstFailureNext(items, es, i, false, ft);
        SkipEntry(es, i, init, ft);
        return None, unknown + [e.key];
      }
      err := LoadKnown(es, i, init, ft);
      FirstFailureNext(items, es, i, err.Some?, ft);
      reported := unknown;
    }

    /** An entry with an unknown name changes no cell. */
    lemma SkipEntry(es: seq<Node>, i: nat, init: map<string, CellView>, ft: FloatText)
      requires i < |es| && es[i].key !in items && Valid() && Replayed(init, es[..i], ft)
      ensures Replayed(init, es[..i + 1], ft)
    {
      forall k | k in items && k in init
        ensures items[k].View() == Replay(init[k], items[k].updateFn.value, items[k].kind, Dispatched(items, items[k], es[..i + 1]), ft)
      {
        var c := items[k];
        DispatchedStep(items, c, es, i);
        assert Dispatched(items, c, es[..i + 1]) == Dispatched(items, c, es[..i]);
      }
    }

    /**
     * Param<T>::load on the cell es[i] names: a failure leaves every cell as
     * it was, otherwise that cell takes the entry and the others are left alone.
     */
    method LoadKnown(es: seq<Node>, i: nat, ghost init: map<string, CellView>, ft: FloatText) returns (err: Option<DocError>)
      requires i < |es| && es[i].key in items && Valid() && Replayed(init, es[..i], ft)
      modifies items.Values`value, items.Values`calls
      ensures Valid()
      ensures err.Some? <==> Fails(items, es[i], ft)
      ensures err.Some? ==> err.value == Decode(items[es[i].key].kind, es[i], ft).error
      ensures Replayed(init, if err.Some? then es[..i] else es[..i + 1], ft)
    {
      var e := es[i];
      var cell := items[e.key];
      label Before:
      err := cell.Load(e, ft);
      if err.Some? {
        assert forall k :: k in items ==> items[k].View() == old(items[k].View());
        return;
      }
      forall k | k in items && k in init
        ensures items[k].View() == Replay(init[k], items[k].updateFn.value, items[k].kind, Dispatched(items, items[k], es[..i + 1]), ft)
      {
        var c := items[k];
        DispatchedStep(items, c, es, i);
        if c == cell {
          ReplayStep(init[k], c.updateFn.value, c.kind, Dispatched(items, c, es[..i]), e, ft);
        } else {
          assert Dispatched(items, c, es[..i + 1]) == Dispatched(items, c, es[..i]);
          assert c.View() == old@Before(c.View());
        }
      }
    }
  }

  /** Loading one more entry: the prefix's dispatch to c, plus the entry if it names c. */
  lemma DispatchedStep(items: map<string, Cell>, c: Cell, es: seq<Node>, i: nat)
    requires i < |es|
    ensures Dispatched(items, c, es[..i + 1])
      == Dispatched(items, c, es[..i]) + (if es[i].key in items && items[es[i].key] == c then [es[i]] else [])
  {
    assert es[..i + 1][..i] == es[..i];
  }

  /** Loading one more entry: the prefix's unknown names, plus the entry's if it is unknown. */
  lemma UnknownKeysStep(items: map<string, Cell>, es: seq<Node>, i: nat)
    requires i < |es|
    ensures UnknownKeys(items, es[..i + 1]) == UnknownKeys(items, es[..i]) + (if es[i].key in items then [] else [es[i].key])
  {
    assert es[..i + 1][..i] == es[..i];
  }

  lemma ReplayStep(s: CellView, fn: CallbackId, k: Kind, d: seq<Node>, e: Node, ft: FloatText)
    ensures Replay(s, fn, k, d + [e], ft) == Step(Replay(s, fn, k, d, ft), fn, k, e, ft)
  {
    assert (d + [e])[..|d|] == d;
  }

  /**
   * The loop of save: every name of the registry, visited in unspecified
   * order, contributes the node its value saves as.
   */
  method SaveEntries(snap: map<string, Value>, ft: FloatText) returns (entries: seq<Node>)
    ensures SavedEntries(snap, entries, ft)
  {
    entries := [];
    var done: set<string> := {};
    while done != snap.Keys
      invariant done <= snap.Keys
      invariant Saves(snap, done, entries, ft)
      decreases snap.Keys - done
    {
      var k :| k in snap.Keys && k !in done;
      SavesExtend(snap, done, entries, k, ft);
      entries := entries + [Encode(k, snap[k], ft)];
      done := done + {k};
    }
  }

  /** Saving one more name appends its node to the saved entries. */
  lemma SavesExtend(snap: map<string, Value>, ks: set<string>, es: seq<Node>, k: string, ft: FloatText)
    requires Saves(snap, ks, es, ft) && k in snap && k !in ks
    ensures Saves(snap, ks + {k}, es + [Encode(k, snap[k], ft)], ft)
  {
    EncodesAllExtend(snap, ks, es, k, ft);
    DistinctKeysExtend(ks, es, Encode(k, snap[k], ft));
    assert (es + [Encode(k, snap[k], ft)])[..|es|] == es;
  }

  lemma EncodesAllExtend(snap: map<string, Value>, ks: set<string>, es: seq<Node>, k: string, ft: FloatText)
    requires forall i :: 0 <= i < |es| ==> es[i].key in ks && es[i].key in snap && es[i] == Encode(es[i].key, snap[es[i].key], ft)
    requires k in snap
    ensures var es' := es + [Encode(k, snap[k], ft)];
      forall i :: 0 <= i < |es'| ==> es'[i].key in ks + {k} && es'[i].key in snap && es'[i] == Encode(es'[i].key, snap[es'[i].key], ft)
  {
  }

  lemma DistinctKeysExtend(ks: set<string>, es: seq<Node>, e: Node)
    requires KeySet(es) == ks && e.key !in ks
    requires forall i, j :: 0 <= i < j < |es| ==> es[i].key != es[j].key
    ensures var es' := es + [e];
      forall i, j :: 0 <= i < j < |es'| ==> es'[i].key != es'[j].key
  {
  }

  /** The keys of es. */
  function KeySet(es: seq<Node>): (r: set<string>)
    ensures forall i :: 0 <= i < |es| ==> es[i].key in r
    decreases |es|
  {
    if es == [] then {} else KeySet(es[..|es| - 1]) + {es[|es| - 1].key}
  }

  lemma {:induction false} KeySetIndex(es: seq<Node>, k: string)
    requires k in KeySet(es)
    ensures exists i :: 0 <= i < |es| && es[i].key == k
    decreases |es|
  {
    var last := |es| - 1;
    if es[last].key != k {
      KeySetIndex(es[..last], k);
      var i :| 0 <= i < last && es[..last][i].key == k;
      assert es[i].key == k;
    }
  }

  /**
   * Entries saved for the names ks of a snapshot: one per name, each the
   * node its value saves as.
   */
  ghost predicate Saves(snap: map<string, Value>, ks: set<string>, es: seq<Node>, ft: FloatText) {
    && KeySet(es) == ks
    && (forall i :: 0 <= i < |es| ==> es[i].key in ks && es[i].key in snap && es[i] == Encode(es[i].key, snap[es[i].key], ft))
    && (forall i, j :: 0 <= i < j < |es| ==> es[i].key != es[j].key)
  }

  /** The saved entries for a whole snapshot of the registry. */
  ghost predicate SavedEntries(snap: map<string, Value>, es: seq<Node>, ft: FloatText) {
    Saves(snap, snap.Keys, es, ft)
  }

  /** A document as save writes it: a single "params" array of saved entries. */
  ghost predicate IsSavedDocument(doc: Node, snap: map<string, Value>, ft: FloatText) {
    && doc.Array? && |doc.children| == 1
    && doc.children[0].Array? && doc.children[0].key == "params"
    && SavedEntries(snap, doc.children[0].children, ft)
  }

  // ------------------------------------------------------------ load properties

  /** The entries sent to c are exactly the entries of es whose name is registered to c. */
  lemma {:induction false} DispatchedMembers(items: map<string, Cell>, c: Cell, es: seq<Node>, e: Node)
    ensures e in Dispatched(items, c, es) <==> e in es && e.key in items && items[e.key] == c
    decreases |es|
  {
    if es != [] {
      var init := es[..|es| - 1];
      DispatchedMembers(items, c, init, e);
      assert es == init + [es[|es| - 1]];
    }
  }

  /** A name is reported unknown exactly when some entry carries it and it is not registered. */
  lemma {:induction false} UnknownKeysMembers(items: map<string, Cell>, es: seq<Node>, x: string)
    ensures x in UnknownKeys(items, es) <==> x !in items && exists i :: 0 <= i < |es| && es[i].key == x
    decreases |es|
  {
    if es != [] {
      var init := es[..|es| - 1];
      UnknownKeysMembers(items, init, x);
      if x in UnknownKeys(items, init) {
        var i :| 0 <= i < |init| && init[i].key == x;
        assert es[i].key == x;
      } else if x !in items && exists i :: 0 <= i < |es| && es[i].key == x {
        var i :| 0 <= i < |es| && es[i].key == x;
        assert i == |init|;
      }
    }
  }

  /** A cell of a kind without a load specialisation is never changed by loading. */
  lemma {:induction false} ReplayOther(s: CellView, fn: CallbackId, es: seq<Node>, ft: FloatText)
    ensures Replay(s, fn, Other, es, ft) == s
    decreases |es|
  {
    if es != [] {
      ReplayOther(s, fn, es[..|es| - 1], ft);
    }
  }

  /** Every entry of es that gives a value to a cell of kind k gives it v. */
  ghost predicate Agree(k: Kind, es: seq<Node>, v: Value, ft: FloatText) {
    forall i :: 0 <= i < |es| ==> Decoded(k, es[i], ft) == None || Decoded(k, es[i], ft) == Some(v)
  }

  /** Some entry of es gives a value to a cell of kind k. */
  ghost predicate HasValue(k: Kind, es: seq<Node>, ft: FloatText)
    decreases |es|
  {
    es != [] && (HasValue(k, es[..|es| - 1], ft) || Decoded(k, es[|es| - 1], ft).Some?)
  }

  /** An entry that gives a value makes the sequence give one. */
  lemma {:induction false} HasValueAt(k: Kind, es: seq<Node>, i: nat, ft: FloatText)
    requires i < |es| && Decoded(k, es[i], ft).Some?
    ensures HasValue(k, es, ft)
    decreases |es|
  {
    if i < |es| - 1 {
      HasValueAt(k, es[..|es| - 1], i, ft);
    }
  }

  /**
   * Entries that agree on v leave the cell as a single update with v would:
   * at most one callback, however many entries there are.
   */
  lemma {:induction false} ReplaySettles(s: CellView, fn: CallbackId, k: Kind, es: seq<Node>, v: Value, ft: FloatText)
    requires Agree(k, es, v, ft)
    ensures Replay(s, fn, k, es, ft) == if HasValue(k, es, ft) then Updated(s, fn, v) else s
    decreases |es|
  {
    if es != [] {
      var init := es[..|es| - 1];
      AgreeSnoc(k, es, v, ft);
      ReplaySettles(s, fn, k, init, v, ft);
      UpdatedIdempotent(s, fn, v);
    }
  }

  /** Agreement of a sequence is agreement of its prefix and its last entry. */
  lemma AgreeSnoc(k: Kind, es: seq<Node>, v: Value, ft: FloatText)
    requires es != [] && Agree(k, es, v, ft)
    ensures Agree(k, es[..|es| - 1], v, ft)
    ensures Decoded(k, es[|es| - 1], ft) == None || Decoded(k, es[|es| - 1], ft) == Some(v)
  {
    assert forall i :: 0 <= i < |es| - 1 ==> es[..|es| - 1][i] == es[i];
  }

  /**
   * Loading entries that agree a second time changes nothing: no value and
   * no callback.
   */
  lemma ReplayTwice(s: CellView, fn: CallbackId, k: Kind, es: seq<Node>, v: Value, ft: FloatText)
    requires Agree(k, es, v, ft)
    ensures Replay(Replay(s, fn, k, es, ft), fn, k, es, ft) == Replay(s, fn, k, es, ft)
  {
    ReplaySettles(s, fn, k, es, v, ft);
    ReplaySettles(Replay(s, fn, k, es, ft), fn, k, es, v, ft);
    UpdatedIdempotent(s, fn, v);
  }

  /** Every registered cell is sent entries that agree on one value. */
  ghost predicate Unambiguous(items: map<string, Cell>, es: seq<Node>, ft: FloatText) {
    forall k :: k in items ==> exists v :: Agree(items[k].kind, Dispatched(items, items[k], es), v, ft)
  }

  /** Loading entries that agree for every cell twice leaves every cell as loading them once. */
  lemma LoadedTwice(items: map<string, Cell>, fns: map<string, CallbackId>, init: map<string, CellView>, d: seq<Node>, ft: FloatText)
    requires Unambiguous(items, d, ft)
    ensures var once := LoadedViews(items, fns, init, d, ft);
      LoadedViews(items, fns, once, d, ft) == once
  {
    var once := LoadedViews(items, fns, init, d, ft);
    forall k | k in items && k in fns && k in init
      ensures Replay(once[k], fns[k], items[k].kind, Dispatched(items, items[k], d), ft) == once[k]
    {
      var v :| Agree(items[k].kind, Dispatched(items, items[k], d), v, ft);
      ReplayTwice(init[k], fns[k], items[k].kind, Dispatched(items, items[k], d), v, ft);
    }
  }

  /**
   * Without agreement a reload is not quiet: a document naming one bool
   * twice with different values flips the cell and fires its callback on
   * every load.
   */
  lemma DuplicateEntriesFireAgain(fn: CallbackId, ft: FloatText)
    ensures var es := [Scalar("flag", "1"), Scalar("flag", "0")];
      var once := Replay(CellView(BoolV(false), []), fn, Bool, es, ft);
      && once == CellView(BoolV(false), [fn, fn])
      && Replay(once, fn, Bool, es, ft) == CellView(BoolV(false), [fn, fn, fn, fn])
  {
    var es := [Scalar("flag", "1"), Scalar("flag", "0")];
    assert es[..1] == [Scalar("flag", "1")];
    assert es[..1][..0] == [];
    assert Decoded(Bool, es[0], ft) == Some(BoolV(true));
    assert Decoded(Bool, es[1], ft) == Some(BoolV(false));
  }

  /** When no entry of es fails, the first failure is at |es|. */
  lemma NoFailure(items: map<string, Cell>, es: seq<Node>, ft: FloatText)
    requires forall i :: 0 <= i < |es| ==> !Fails(items, es[i], ft)
    ensures FirstFailure(items, es, ft) == |es|
  {
    FirstFailureSpec(items, es, ft);
  }

  /**
   * Save then load: a document saved from snapshot snap of the registry
   * items loads to the end, and brings every cell of a loadable kind to the
   * value it had when saved, through one update; other kinds are untouched.
   * The floats of every saved value are taken to read back as themselves.
   */
  lemma SavedEntriesReload(items: map<string, Cell>, snap: map<string, Value>, es: seq<Node>, k: string,
                           s: CellView, fn: CallbackId, ft: FloatText)
    requires SavedEntries(snap, es, ft)
    requires forall j :: j in snap ==> ReadsBack(ft, Floats(snap[j]))
    requires snap.Keys == items.Keys
    requires forall j :: j in items ==> KindOf(snap[j]) == items[j].kind
    requires k in items
    requires forall j :: j in items && items[j] == items[k] ==> snap[j] == snap[k]
    ensures FirstFailure(items, es, ft) == |es|
    ensures var c := items[k];
      Replay(s, fn, c.kind, Dispatched(items, c, es), ft) == if c.kind == Other then s else Updated(s, fn, snap[k])
  {
    var c := items[k];
    forall i | 0 <= i < |es|
      ensures !Fails(items, es[i], ft)
      ensures es[i].key in items && items[es[i].key] == c && c.kind != Other ==> Decoded(c.kind, es[i], ft) == Some(snap[k])
    {
      DecodeEncode(es[i].key, snap[es[i].key], ft);
    }
    NoFailure(items, es, ft);
    var d := Dispatched(items, c, es);
    if c.kind == Other {
      ReplayOther(s, fn, d, ft);
    } else {
      forall i | 0 <= i < |d|
        ensures Decoded(c.kind, d[i], ft) == Some(snap[k])
      {
        DispatchedMembers(items, c, es, d[i]);
      }
      KeySetIndex(es, k);
      var i :| 0 <= i < |es| && es[i].key == k;
      DispatchedMembers(items, c, es, es[i]);
      var j :| 0 <= j < |d| && d[j] == es[i];
      HasValueAt(c.kind, d, j, ft);
      ReplaySettles(s, fn, c.kind, d, snap[k], ft);
    }
  }

  // ------------------------------------------------------------ singleton

  /** The process-wide state behind live::bag(). */
  class Process {
    var instance: Bag?

    constructor ()
      ensures instance == null
    {
      instance := null;
    }

    /**
     * live::bag(): the first call constructs the bag (disk is the backing
     * file as found then); every later call returns that same bag.
     */
    method Instance(disk: BackingFile) returns (b: Bag)
      modifies this
      ensures instance == b
      ensures old(instance) != null ==> b == old(instance)
      ensures old(instance) == null ==> fresh(b) && b.Valid() && b.items == map[] && b.file == Created(disk)
    {
      if instance == null {
        instance := new Bag(disk);
      }
      b := instance;
    }

    /** JsonBag::add: fetches the bag, then registers p with it. */
    method Add(p: Cell, key: string, fn: CallbackId, disk: BackingFile)
      requires instance != null ==> instance.Valid()
      requires p.Valid()
      modifies this, instance, p
      ensures instance != null && instance.Valid()
      ensures old(instance) != null ==> instance == old(instance)
      ensures p.owner == instance && p.updateFn == Some(fn)
      ensures p.value == old(p.value) && p.calls == old(p.calls) && p.target == old(p.target)
      ensures old(instance) != null ==> instance.file == old(instance.file)
      ensures old(instance) == null ==> instance.file == Created(disk)
      ensures var before := if old(instance) == null then map[] else old(instance.items);
        instance.items == if key in before then before else before[key := p]
    {
      var b := Instance(disk);
      b.Add(p, key, fn);
    }
  }
}

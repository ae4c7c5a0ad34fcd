/**
 * The structured document and the per-kind codec: the save and load
 * specialisations of Param<T>.
 *
 * A node is a named scalar (its text) or a named array of child nodes.
 * Scalars (bool, int, float and any other T) are written as one scalar node
 * holding ci::toString of the value; vec2/vec3/vec4, quat and Color are
 * written as an array node whose children are the named components.
 * Loading reads compounds by child name, not by position.
 */
module Codec {
  import opened Wrappers
  import opened Text

  datatype Node = Scalar(key: string, text: string) | Array(key: string, children: seq<Node>)

  /** Why reading a document entry failed (the library's non-parse exceptions). */
  datatype DocError =
    | ChildNotFound(name: string)   // getChild found no child of that name
    | NotConvertible(key: string)   // getValue<T> could not convert the node's text

  /** The closed set of value types a cell can hold; Other is any T without a load specialisation. */
  datatype Kind = Bool | Int | Float | Vec2 | Vec3 | Vec4 | Quat | Color | Other

  datatype Value =
    | BoolV(flag: bool)
    | IntV(n: Int32)
    | FloatV(f: real)
    | Vec2V(x: real, y: real)
    | Vec3V(x: real, y: real, z: real)
    | Vec4V(x: real, y: real, z: real, w: real)
    | QuatV(w: real, x: real, y: real, z: real)
    | ColorV(r: real, g: real, b: real)
    | OtherV(shown: string)   // a value of some other T, seen only through ci::toString

  function KindOf(v: Value): Kind {
    match v
    case BoolV(_) => Bool
    case IntV(_) => Int
    case FloatV(_) => Float
    case Vec2V(_, _) => Vec2
    case Vec3V(_, _, _) => Vec3
    case Vec4V(_, _, _, _) => Vec4
    case QuatV(_, _, _, _) => Quat
    case ColorV(_, _, _) => Color
    case OtherV(_) => Other
  }

  /** The child names a compound kind is saved under, in the order they are written. */
  function ComponentNames(k: Kind): seq<string> {
    match k
    case Vec2 => ["x", "y"]
    case Vec3 => ["x", "y", "z"]
    case Vec4 => ["x", "y", "z", "w"]
    case Quat => ["w", "x", "y", "z"]
    case Color => ["r", "g", "b"]
    case _ => []
  }

  predicate IsCompound(k: Kind) {
    k in {Vec2, Vec3, Vec4, Quat, Color}
  }

  function Keys(ns: seq<Node>): (ks: seq<string>)
    ensures |ks| == |ns| && forall i :: 0 <= i < |ns| ==> ks[i] == ns[i].key
  {
    if ns == [] then [] else [ns[0].key] + Keys(ns[1..])
  }

  /** The first of ns whose key is name (JsonTree::getChild on an array). */
  function FirstWithKey(ns: seq<Node>, name: string): (r: Option<Node>)
    ensures r.Some? ==> r.value in ns && r.value.key == name
  {
    if ns == [] then None
    else if ns[0].key == name then Some(ns[0])
    else FirstWithKey(ns[1..], name)
  }

  /** getChild(name): a scalar has no children. */
  function Child(n: Node, name: string): Option<Node> {
    if n.Scalar? then None else FirstWithKey(n.children, name)
  }

  /** The children an iteration over n visits (none for a scalar). */
  function Children(n: Node): seq<Node> {
    if n.Scalar? then [] else n.children
  }

  // ---------------------------------------------------------------- save

  /** The float components of a compound value, in ComponentNames order. */
  function Components(v: Value): (xs: seq<real>)
    ensures |xs| == |ComponentNames(KindOf(v))|
  {
    match v
    case Vec2V(x, y) => [x, y]
    case Vec3V(x, y, z) => [x, y, z]
    case Vec4V(x, y, z, w) => [x, y, z, w]
    case QuatV(w, x, y, z) => [w, x, y, z]
    case ColorV(r, g, b) => [r, g, b]
    case _ => []
  }

  /** The compound value of kind k whose components, in ComponentNames order, are xs. */
  function FromComponents(k: Kind, xs: seq<real>): (v: Value)
    requires IsCompound(k) && |xs| == |ComponentNames(k)|
    ensures KindOf(v) == k && Components(v) == xs
  {
    match k
    case Vec2 => Vec2V(xs[0], xs[1])
    case Vec3 => Vec3V(xs[0], xs[1], xs[2])
    case Vec4 => Vec4V(xs[0], xs[1], xs[2], xs[3])
    case Quat => QuatV(xs[0], xs[1], xs[2], xs[3])
    case Color => ColorV(xs[0], xs[1], xs[2])
  }

  /** The floats v is written as, one text each: the float itself, or the components of a compound. */
  function Floats(v: Value): seq<real> {
    if v.FloatV? then [v.f] else Components(v)
  }

  /** One component child, ci::toString of the float. */
  function Component(name: string, x: real, ft: FloatText): Node {
    Scalar(name, ft.show(x))
  }

  /** The children pushed back one after the other, names[i] holding xs[i]. */
  function ComponentNodes(names: seq<string>, xs: seq<real>, ft: FloatText): (cs: seq<Node>)
    requires |names| == |xs|
    ensures |cs| == |names|
    ensures forall i :: 0 <= i < |cs| ==> cs[i] == Component(names[i], xs[i], ft)
  {
    seq(|names|, i requires 0 <= i < |names| => Component(names[i], xs[i], ft))
  }

  /**
   * Param<T>::save: the node appended under name for value v. Scalars are
   * one scalar node holding the value's text; compounds an array whose
   * scalar children are the components, named and ordered as in
   * ComponentNames (quat writes w first, Color has no alpha).
   */
  function Encode(name: string, v: Value, ft: FloatText): (r: Node)
    ensures r.key == name
    ensures r.Array? <==> IsCompound(KindOf(v))
  {
    match v
    case BoolV(b) => Scalar(name, ShowBool(b))
    case IntV(i) => Scalar(name, ShowInt(i))
    case FloatV(f) => Scalar(name, ft.show(f))
    case OtherV(s) => Scalar(name, s)
    case _ => Array(name, ComponentNodes(ComponentNames(KindOf(v)), Components(v), ft))
  }

  /** A compound is saved as scalar children named, in order, by ComponentNames. */
  lemma EncodeComponentOrder(name: string, v: Value, ft: FloatText)
    requires IsCompound(KindOf(v))
    ensures Keys(Encode(name, v, ft).children) == ComponentNames(KindOf(v))
    ensures forall c :: c in Encode(name, v, ft).children ==> c.Scalar?
  {
  }

  // ---------------------------------------------------------------- load

  /** getValue<float> on a node: only a scalar's text can be converted. */
  function ReadFloat(n: Node, ft: FloatText): (r: Result<real, DocError>)
    ensures r.Success? <==> n.Scalar? && ft.parse(n.text).Some?
  {
    if n.Scalar? && ft.parse(n.text).Some? then Success(ft.parse(n.text).value)
    else Failure(NotConvertible(n.key))
  }

  /** getChild(name).getValue<float>(). */
  function ReadComponent(n: Node, name: string, ft: FloatText): (r: Result<real, DocError>)
    ensures Child(n, name).None? ==> r == Failure(ChildNotFound(name))
  {
    match Child(n, name)
    case None => Failure(ChildNotFound(name))
    case Some(c) => ReadFloat(c, ft)
  }

  /** The components under names, read one after the other; the first failure ends the read. */
  function ReadComponents(n: Node, names: seq<string>, ft: FloatText): (r: Result<seq<real>, DocError>)
    ensures r.Success? ==> |r.value| == |names|
    ensures names != [] && Child(n, names[0]).None? ==> r == Failure(ChildNotFound(names[0]))
  {
    if names == [] then Success([])
    else
      var x :- ReadComponent(n, names[0], ft);
      var rest :- ReadComponents(n, names[1..], ft);
      Success([x] + rest)
  }

  /**
   * What the component read means: it succeeds exactly when every name
   * reads as a float, the i-th float is then what names[i] reads as, and a
   * failure is the error of the first name that does not read.
   */
  lemma {:induction false} ReadComponentsMeaning(n: Node, names: seq<string>, ft: FloatText)
    ensures var r := ReadComponents(n, names, ft);
      && (r.Success? <==> forall i :: 0 <= i < |names| ==> ReadComponent(n, names[i], ft).Success?)
      && (r.Success? ==> forall i :: 0 <= i < |names| ==> ReadComponent(n, names[i], ft) == Success(r.value[i]))
      && (r.Failure? ==>
            exists i :: 0 <= i < |names| && ReadComponent(n, names[i], ft) == Failure(r.error) &&
              forall j :: 0 <= j < i ==> ReadComponent(n, names[j], ft).Success?)
    decreases |names|
  {
    if names != [] {
      ReadComponentsMeaning(n, names[1..], ft);
      var rest := ReadComponents(n, names[1..], ft);
      if ReadComponent(n, names[0], ft).Success? && rest.Failure? {
        var i :| 0 <= i < |names| - 1 && ReadComponent(n, names[1..][i], ft) == Failure(rest.error) &&
          forall j :: 0 <= j < i ==> ReadComponent(n, names[1..][j], ft).Success?;
        assert ReadComponent(n, names[i + 1], ft) == Failure(rest.error);
        assert forall j :: 1 <= j < i + 1 ==> names[j] == names[1..][j - 1];
      }
    }
  }

  /**
   * Param<T>::load up to the call of update: the value the entry n decodes
   * to for a cell of kind k. Some(v) is passed to update; None is the
   * default load of a T without specialisation, which does nothing; a
   * Failure is the exception the library throws (a text getValue cannot
   * convert, or a component getChild cannot find).
   */
  function Decode(k: Kind, n: Node, ft: FloatText): (r: Result<Option<Value>, DocError>)
    ensures k == Other <==> r == Success(None)
    ensures r.Success? && r.value.Some? ==> KindOf(r.value.value) == k
  {
    match k
    case Other => Success(None)
    case Bool =>
      if n.Scalar? && ParseBool(n.text).Some? then Success(Some(BoolV(ParseBool(n.text).value)))
      else Failure(NotConvertible(n.key))
    case Int =>
      if n.Scalar? && ParseInt(n.text).Some? then Success(Some(IntV(ParseInt(n.text).value)))
      else Failure(NotConvertible(n.key))
    case Float =>
      var f :- ReadFloat(n, ft);
      Success(Some(FloatV(f)))
    case _ =>
      var xs :- ReadComponents(n, ComponentNames(k), ft);
      Success(Some(FromComponents(k, xs)))
  }

  /** The value update receives, if any. */
  function Decoded(k: Kind, n: Node, ft: FloatText): Option<Value> {
    var r := Decode(k, n, ft);
    if r.Success? && r.value.Some? then r.value else None
  }

  // ---------------------------------------------------------------- round trips

  /** bool, int and float: the scalar node reads back as the value. */
  lemma ScalarRoundTrip(name: string, v: Value, ft: FloatText)
    requires KindOf(v) in {Bool, Int, Float}
    requires KindOf(v) == Float ==> ft.parse(ft.show(v.f)) == Some(v.f)
    ensures Decode(KindOf(v), Encode(name, v, ft), ft) == Success(Some(v))
  {
    match v
    case BoolV(b) => ParseShowBool(b);
    case IntV(i) => ParseShowInt(i);
    case FloatV(f) =>
  }

  lemma {:induction false} FirstWithKeyAt(ns: seq<Node>, i: nat)
    requires i < |ns|
    requires forall j :: 0 <= j < i ==> ns[j].key != ns[i].key
    ensures FirstWithKey(ns, ns[i].key) == Some(ns[i])
  {
    if i > 0 {
      FirstWithKeyAt(ns[1..], i - 1);
    }
  }

  predicate Distinct(names: seq<string>) {
    forall i, j :: 0 <= i < j < |names| ==> names[i] != names[j]
  }

  lemma ComponentNamesDistinct(k: Kind)
    ensures Distinct(ComponentNames(k))
  {
    var names := ComponentNames(k);
    forall i, j | 0 <= i < j < |names| ensures names[i] != names[j] {
      assert names[i][0] != names[j][0];
    }
  }

  /**
   * Reading back, by name, the components pushed under distinct names gives
   * them back, in order.
   */
  lemma ReadComponentsBack(name: string, names: seq<string>, xs: seq<real>, ft: FloatText)
    requires ReadsBack(ft, xs)
    requires |names| == |xs| && Distinct(names)
    ensures ReadComponents(Array(name, ComponentNodes(names, xs, ft)), names, ft) == Success(xs)
  {
    var n := Array(name, ComponentNodes(names, xs, ft));
    forall i | 0 <= i < |names|
      ensures ReadComponent(n, names[i], ft) == Success(xs[i])
    {
      ReadComponentAt(name, names, xs, i, ft);
    }
    ReadComponentsAll(n, names, xs, ft);
  }

  /** When every name reads as the float at its position, the reads in order give all of them. */
  lemma {:induction false} ReadComponentsAll(n: Node, names: seq<string>, xs: seq<real>, ft: FloatText)
    requires |names| == |xs|
    requires forall i :: 0 <= i < |names| ==> ReadComponent(n, names[i], ft) == Success(xs[i])
    ensures ReadComponents(n, names, ft) == Success(xs)
    decreases |names|
  {
    if names != [] {
      assert forall i :: 0 <= i < |names| - 1 ==> names[1..][i] == names[i + 1] && xs[1..][i] == xs[i + 1];
      ReadComponentsAll(n, names[1..], xs[1..], ft);
      ReadComponentsCons(n, names, xs[0], xs[1..], ft);
      assert [xs[0]] + xs[1..] == xs;
    }
  }

  /** A successful read of the first name followed by one of the rest. */
  lemma ReadComponentsCons(n: Node, names: seq<string>, x: real, rest: seq<real>, ft: FloatText)
    requires names != []
    requires ReadComponent(n, names[0], ft) == Success(x)
    requires ReadComponents(n, names[1..], ft) == Success(rest)
    ensures ReadComponents(n, names, ft) == Success([x] + rest)
  {
  }

  lemma ReadComponentAt(name: string, names: seq<string>, xs: seq<real>, i: nat, ft: FloatText)
    requires ReadsBack(ft, xs)
    requires |names| == |xs| && i < |names| && Distinct(names)
    ensures ReadComponent(Array(name, ComponentNodes(names, xs, ft)), names[i], ft) == Success(xs[i])
  {
    FirstWithKeyAt(ComponentNodes(names, xs, ft), i);
    assert ft.parse(ft.show(xs[i])) == Some(xs[i]);
  }

  /**
   * vec2/vec3/vec4, quat and Color: the array node saved for a compound
   * reads back, child by child and by name, as the same value.
   */
  lemma CompoundRoundTrip(name: string, v: Value, ft: FloatText)
    requires IsCompound(KindOf(v))
    requires ReadsBack(ft, Components(v))
    ensures Decode(KindOf(v), Encode(name, v, ft), ft) == Success(Some(v))
  {
    var k := KindOf(v);
    ComponentNamesDistinct(k);
    ReadComponentsBack(name, ComponentNames(k), Components(v), ft);
  }

  /**
   * Every kind: loading what was saved gives the value back, when the floats
   * it is written as read back as themselves; except Other, whose load does
   * nothing.
   */
  lemma DecodeEncode(name: string, v: Value, ft: FloatText)
    requires ReadsBack(ft, Floats(v))
    ensures Decoded(KindOf(v), Encode(name, v, ft), ft) == if KindOf(v) == Other then None else Some(v)
  {
    match v
    case BoolV(_) => ScalarRoundTrip(name, v, ft);
    case IntV(_) => ScalarRoundTrip(name, v, ft);
    case FloatV(f) => assert Floats(v)[0] == f; ScalarRoundTrip(name, v, ft);
    case OtherV(_) =>
    case _ => CompoundRoundTrip(name, v, ft);
  }

  /**
   * Compounds are read by child name, not position: two array entries that
   * agree on the child found under every component name decode alike, so the
   * order children are written in (w first for quat) does not matter.
   */
  lemma DecodeReadsByName(k: Kind, a: Node, b: Node, ft: FloatText)
    requires IsCompound(k)
    requires forall name :: name in ComponentNames(k) ==> Child(a, name) == Child(b, name)
    ensures Decode(k, a, ft) == Decode(k, b, ft)
  {
    ReadsByName(a, b, ComponentNames(k), ft);
  }

  lemma {:induction false} ReadsByName(a: Node, b: Node, names: seq<string>, ft: FloatText)
    requires forall name :: name in names ==> Child(a, name) == Child(b, name)
    ensures ReadComponents(a, names, ft) == ReadComponents(b, names, ft)
  {
    if names != [] {
      assert Child(a, names[0]) == Child(b, names[0]);
      ReadsByName(a, b, names[1..], ft);
    }
  }
}

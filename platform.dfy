/**
 * The browser and framework objects the core reads but does not own: native
 * elements with their attribute lists, and the framework's component tree
 * (a DebugElement with its native element, instance and view children).
 * The tree walks the core performs are specified here once, as the sequence
 * of nodes they visit (pre-order) and the positions of those nodes.
 */
module Platform {
  import opened Wrappers

  /** One entry of `element.attributes`. */
  datatype Attr = Attr(name: string, value: string)

  /** A native element: its identity in the document and its attributes in document order. */
  datatype Element = Element(ref: nat, attributes: seq<Attr>)

  /** The shallow copy of a component instance's own enumerable properties; opaque to the core. */
  type State = map<string, string>

  /**
   * A live component handle: the native element it renders into, the name of
   * its constructor, its instance state and its view children in framework order.
   */
  datatype Component = Component(nativeElement: Element, name: string, state: State, children: seq<Component>)

  /** The value of the first attribute named `name` in `attrs`. */
  function FirstValue(attrs: seq<Attr>, name: string): Option<string>
  {
    if attrs == [] then None
    else if attrs[0].name == name then Some(attrs[0].value)
    else FirstValue(attrs[1..], name)
  }

  /** The value found is that of the first attribute with the name; there is none exactly when no attribute has it. */
  lemma {:induction false} FirstValueSpec(attrs: seq<Attr>, name: string)
    ensures FirstValue(attrs, name).None? <==> forall i :: 0 <= i < |attrs| ==> attrs[i].name != name
    ensures FirstValue(attrs, name).Some? ==>
              exists i :: 0 <= i < |attrs| && attrs[i] == Attr(name, FirstValue(attrs, name).value)
                          && forall j :: 0 <= j < i ==> attrs[j].name != name
  {
    if attrs != [] && attrs[0].name != name {
      var r := FirstValue(attrs[1..], name);
      FirstValueSpec(attrs[1..], name);
      assert forall i :: 0 <= i < |attrs[1..]| ==> attrs[1..][i] == attrs[i + 1];
      if r.Some? {
        var k :| 0 <= k < |attrs[1..]| && attrs[1..][k] == Attr(name, r.value)
                 && forall j :: 0 <= j < k ==> attrs[1..][j].name != name;
        assert attrs[k + 1] == Attr(name, r.value);
        assert forall j :: 0 <= j < k + 1 ==> attrs[j].name != name;
      }
    }
  }

  /** `el.getAttribute(name)`: `None` stands for `null`. */
  function GetAttribute(el: Element, name: string): Option<string>
  {
    FirstValue(el.attributes, name)
  }

  /** Number of nodes of a component tree. */
  function Size(t: Component): nat
  {
    1 + SizeList(t.children)
  }

  function SizeList(cs: seq<Component>): nat
  {
    if cs == [] then 0 else SizeList(cs[..|cs| - 1]) + Size(cs[|cs| - 1])
  }

  /** The nodes a recursive "visit, then each child's subtree in order" walk visits. */
  function PreOrder(t: Component): seq<Component>
  {
    [t] + PreOrderList(t.children)
  }

  /** The concatenated pre-order walks of a sequence of siblings. */
  function PreOrderList(cs: seq<Component>): seq<Component>
  {
    if cs == [] then [] else PreOrderList(cs[..|cs| - 1]) + PreOrder(cs[|cs| - 1])
  }

  /** A position in the tree: the child index taken at each level, starting at the entry node. */
  type Path = seq<nat>

  predicate ValidPath(t: Component, p: Path)
  {
    p == [] || (p[0] < |t.children| && ValidPath(t.children[p[0]], p[1..]))
  }

  function SubtreeAt(t: Component, p: Path): Component
    requires ValidPath(t, p)
  {
    if p == [] then t else SubtreeAt(t.children[p[0]], p[1..])
  }

  function Prefixed(k: nat, ps: seq<Path>): (r: seq<Path>)
    ensures |r| == |ps| && forall i :: 0 <= i < |ps| ==> r[i] == [k] + ps[i]
  {
    seq(|ps|, i requires 0 <= i < |ps| => [k] + ps[i])
  }

  /** The positions of the nodes of PreOrder(t), in the same order. */
  function Paths(t: Component): seq<Path>
  {
    [[]] + PathsList(t.children)
  }

  function PathsList(cs: seq<Component>): seq<Path>
  {
    if cs == [] then [] else PathsList(cs[..|cs| - 1]) + Prefixed(|cs| - 1, Paths(cs[|cs| - 1]))
  }

  /** The walk visits as many nodes as the tree has, entry node first. */
  lemma {:induction false} PreOrderSize(t: Component)
    ensures |PreOrder(t)| == Size(t) && PreOrder(t)[0] == t
  {
    PreOrderListSize(t.children);
  }

  lemma {:induction false} PreOrderListSize(cs: seq<Component>)
    ensures |PreOrderList(cs)| == SizeList(cs)
  {
    if cs != [] {
      PreOrderListSize(cs[..|cs| - 1]);
      PreOrderSize(cs[|cs| - 1]);
    }
  }

  /** The walk of a run of siblings is the walk of its first part followed by that of the rest. */
  lemma {:induction false} PreOrderListConcat(a: seq<Component>, b: seq<Component>)
    ensures PreOrderList(a + b) == PreOrderList(a) + PreOrderList(b)
    decreases |b|
  {
    if b == [] {
      assert a + b == a;
    } else {
      var n := |b| - 1;
      assert (a + b)[..|a + b| - 1] == a + b[..n];
      assert (a + b)[|a + b| - 1] == b[n];
      PreOrderListConcat(a, b[..n]);
    }
  }

  /** The i-th visited node is the subtree at the i-th path. */
  lemma {:induction false} PathsLocate(t: Component)
    ensures |Paths(t)| == |PreOrder(t)|
    ensures forall i :: 0 <= i < |Paths(t)| ==>
              ValidPath(t, Paths(t)[i]) && SubtreeAt(t, Paths(t)[i]) == PreOrder(t)[i]
  {
    PathsListLocate(t.children);
    forall i | 0 <= i < |Paths(t)|
      ensures ValidPath(t, Paths(t)[i]) && SubtreeAt(t, Paths(t)[i]) == PreOrder(t)[i]
    {
      if i > 0 {
        var p := Paths(t)[i];
        assert p == PathsList(t.children)[i - 1];
        assert PreOrder(t)[i] == PreOrderList(t.children)[i - 1];
      }
    }
  }

  lemma {:induction false} PathsListLocate(cs: seq<Component>)
    ensures |PathsList(cs)| == |PreOrderList(cs)|
    ensures forall i :: 0 <= i < |PathsList(cs)| ==>
              var p := PathsList(cs)[i];
              p != [] && p[0] < |cs| && ValidPath(cs[p[0]], p[1..])
              && SubtreeAt(cs[p[0]], p[1..]) == PreOrderList(cs)[i]
  {
    if cs != [] {
      var n := |cs| - 1;
      var front := cs[..n];
      PathsListLocate(front);
      PathsLocate(cs[n]);
      var ps, vs := PathsList(cs), PreOrderList(cs);
      assert ps == PathsList(front) + Prefixed(n, Paths(cs[n]));
      assert vs == PreOrderList(front) + PreOrder(cs[n]);
      forall i | 0 <= i < |ps|
        ensures var p := ps[i];
                p != [] && p[0] < |cs| && ValidPath(cs[p[0]], p[1..])
                && SubtreeAt(cs[p[0]], p[1..]) == vs[i]
      {
        var m := |PathsList(front)|;
        if i < m {
          var p := PathsList(front)[i];
          assert ps[i] == p && vs[i] == PreOrderList(front)[i];
          assert front[p[0]] == cs[p[0]];
        } else {
          var q := Paths(cs[n])[i - m];
          assert ps[i] == [n] + q && ([n] + q)[1..] == q;
          assert vs[i] == PreOrder(cs[n])[i - m];
        }
      }
    }
  }

  /** No position is visited twice. */
  lemma {:induction false} PathsDistinct(t: Component)
    ensures forall i, j :: 0 <= i < j < |Paths(t)| ==> Paths(t)[i] != Paths(t)[j]
  {
    PathsListDistinct(t.children);
    forall i, j | 0 <= i < j < |Paths(t)| ensures Paths(t)[i] != Paths(t)[j] {
      if i > 0 {
        assert Paths(t)[i] == PathsList(t.children)[i - 1];
        assert Paths(t)[j] == PathsList(t.children)[j - 1];
      } else {
        assert Paths(t)[j] == PathsList(t.children)[j - 1];
      }
    }
  }

  lemma {:induction false} PathsListDistinct(cs: seq<Component>)
    ensures forall i :: 0 <= i < |PathsList(cs)| ==> PathsList(cs)[i] != [] && PathsList(cs)[i][0] < |cs|
    ensures forall i, j :: 0 <= i < j < |PathsList(cs)| ==> PathsList(cs)[i] != PathsList(cs)[j]
  {
    if cs != [] {
      var n := |cs| - 1;
      var front := cs[..n];
      PathsListDistinct(front);
      PathsDistinct(cs[n]);
      var a, b := PathsList(front), Prefixed(n, Paths(cs[n]));
      var ps := PathsList(cs);
      assert ps == a + b;
      forall i | 0 <= i < |ps| ensures ps[i] != [] && ps[i][0] < |cs| {
        if i < |a| { assert ps[i] == a[i]; } else { assert ps[i] == b[i - |a|]; }
      }
      forall i, j | 0 <= i < j < |ps| ensures ps[i] != ps[j] {
        if j < |a| {
          assert ps[i] == a[i] && ps[j] == a[j];
        } else if i < |a| {
          assert ps[i] == a[i] && ps[j] == b[j - |a|];
          assert a[i][0] < n && b[j - |a|][0] == n;
        } else {
          var x, y := Paths(cs[n])[i - |a|], Paths(cs[n])[j - |a|];
          assert ps[i] == [n] + x && ps[j] == [n] + y;
          assert ([n] + x)[1..] == x && ([n] + y)[1..] == y;
        }
      }
    }
  }

  /** Every position of the tree is visited. */
  lemma {:induction false} PathsComplete(t: Component, p: Path)
    requires ValidPath(t, p)
    ensures p in Paths(t)
  {
    if p != [] {
      PathsListComplete(t.children, p);
      var k :| 0 <= k < |PathsList(t.children)| && PathsList(t.children)[k] == p;
      assert Paths(t)[k + 1] == p;
    }
  }

  lemma {:induction false} PathsListComplete(cs: seq<Component>, p: Path)
    requires p != [] && p[0] < |cs| && ValidPath(cs[p[0]], p[1..])
    ensures p in PathsList(cs)
  {
    var n := |cs| - 1;
    var front := cs[..n];
    assert PathsList(cs) == PathsList(front) + Prefixed(n, Paths(cs[n]));
    if p[0] == n {
      PathsComplete(cs[n], p[1..]);
      var k :| 0 <= k < |Paths(cs[n])| && Paths(cs[n])[k] == p[1..];
      assert Prefixed(n, Paths(cs[n]))[k] == [n] + p[1..] == p;
    } else {
      assert front[p[0]] == cs[p[0]];
      PathsListComplete(front, p);
    }
  }
}

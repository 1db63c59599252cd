/**
 * The two helpers of the drag-n-drop library's utility file: removal of the
 * first occurrence of an item from a nested structure of arrays and plain
 * objects, and the index of a child among its parent's children.
 */
module NestedUtils {

  /**
   * One value of a nested structure. `Arr` is a JavaScript array, `Obj` a plain
   * object given by its property values in key order (what `Object.values`
   * returns); `ref` is the object's identity. Leaves are primitives other than
   * strings, `null` and `undefined`.
   */
  datatype Node<T> = Leaf(value: T) | Arr(ref: nat, items: seq<Node<T>>) | Obj(ref: nat, values: seq<Node<T>>)

  /**
   * The JavaScript `===` test: primitives by value, arrays and objects by
   * identity, and never a value of one kind against a value of another.
   */
  predicate StrictEq<T(==)>(a: Node<T>, b: Node<T>): (r: bool)
    ensures a == b ==> r
    ensures a.Leaf? ==> (r <==> a == b)
    ensures r ==> a.Leaf? == b.Leaf? && a.Arr? == b.Arr?
  {
    match a
    case Leaf(x) => b.Leaf? && b.value == x
    case Arr(r, _) => b.Arr? && b.ref == r
    case Obj(r, _) => b.Obj? && b.ref == r
  }

  /** What the recursion scans inside a node: the array itself or `Object.values` of anything else. */
  function Children<T>(n: Node<T>): (c: seq<Node<T>>)
    ensures n.Leaf? ==> c == []
    ensures forall k :: 0 <= k < |c| ==> c[k] < n
  {
    match n
    case Leaf(_) => []
    case Arr(_, items) => items
    case Obj(_, values) => values
  }

  /** True when `item` is `n` itself or sits anywhere below it. */
  ghost predicate Occurs<T>(n: Node<T>, item: Node<T>)
    decreases n, 1
  {
    StrictEq(n, item) ||
    match n
    case Leaf(_) => false
    case Arr(_, items) => OccursIn(items, item)
    case Obj(_, values) => OccursIn(values, item)
  }

  /** True when `item` is an element of `s` or sits anywhere below one. */
  ghost predicate OccursIn<T>(s: seq<Node<T>>, item: Node<T>)
    decreases s, 0
  {
    exists k :: 0 <= k < |s| && Occurs(s[k], item)
  }

  /** The new value of a scanned structure and whether the item was found in it. */
  datatype Removed<X> = Removed(value: X, found: bool)

  /**
   * The reference meaning of `removeNestedItem` on an array: elements are
   * visited left to right, each one is compared with `item` before it is
   * descended into, and the scan stops at the first hit.
   */
  function RemoveFirst<T(==)>(s: seq<Node<T>>, item: Node<T>): Removed<seq<Node<T>>>
    decreases s, 0
  {
    if s == [] then Removed(s, false)
    else if StrictEq(s[0], item) then Removed(s[1..], true)
    else
      var d := Descend(s[0], item);
      if d.found then Removed([d.value] + s[1..], true)
      else
        var tail := RemoveFirst(s[1..], item);
        Removed([s[0]] + tail.value, tail.found)
  }

  /**
   * The effect of the recursive call on the element `n`. An array is scanned in
   * place. An object is scanned through a fresh `Object.values` copy: a hit
   * among its own values only shortens the copy, so the object keeps its values,
   * while a hit deeper down changes a shared array or object and shows through.
   */
  function Descend<T(==)>(n: Node<T>, item: Node<T>): Removed<Node<T>>
    decreases n, 1
  {
    match n
    case Leaf(_) => Removed(n, false)
    case Arr(_, items) =>
      var inner := RemoveFirst(items, item);
      Removed(Rebuild(n, inner.value), inner.found)
    case Obj(_, values) =>
      var inner := RemoveFirst(values, item);
      Removed(Rebuild(n, inner.value), inner.found)
  }

  /**
   * The node `el` after the recursive call has left its scanned copy as
   * `scanned`: an array is the copy itself, an object keeps its values unless
   * the copy kept its length, a primitive is untouched.
   */
  function Rebuild<T>(el: Node<T>, scanned: seq<Node<T>>): Node<T> {
    match el
    case Leaf(_) => el
    case Arr(r, _) => Arr(r, scanned)
    case Obj(r, values) => Obj(r, if |scanned| == |values| then scanned else values)
  }

  /** The number of nodes of a structure, the measure the recursion decreases. */
  ghost function Weight<T>(s: seq<Node<T>>): nat
    decreases s, 0
  {
    if s == [] then 0 else WeightNode(s[0]) + Weight(s[1..])
  }

  ghost function WeightNode<T>(n: Node<T>): nat
    decreases n, 1
  {
    1 + match n
    case Leaf(_) => 0
    case Arr(_, items) => Weight(items)
    case Obj(_, values) => Weight(values)
  }

  lemma {:induction false} ChildrenLighter<T>(s: seq<Node<T>>, i: nat)
    requires i < |s|
    ensures Weight(Children(s[i])) < Weight(s)
    decreases i
  {
    if i > 0 {
      ChildrenLighter(s[1..], i - 1);
    }
  }

  /**
   * `removeNestedItem(arr, item)`: the `forEach` loop with its `found` flag.
   * The structure is a value here, so the method returns the array as the
   * in-place splices leave it.
   */
  method RemoveNestedItem<T(==)>(arr: seq<Node<T>>, item: Node<T>) returns (found: bool, result: seq<Node<T>>)
    ensures Removed(result, found) == RemoveFirst(arr, item)
    decreases Weight(arr)
  {
    found := false;
    result := arr;
    var index := 0;
    while index < |arr|
      invariant 0 <= index <= |arr|
      invariant !found ==> result == arr && forall k :: 0 <= k < index ==> !Occurs(arr[k], item)
      invariant found ==> Removed(result, true) == RemoveFirst(arr, item)
    {
      if !found {
        var el := arr[index];
        if StrictEq(el, item) {
          result := result[..index] + result[index + 1..];
          found := true;
          FirstHitIsSpliced(arr, item, index);
        } else {
          var scanned := Children(el);
          ChildrenLighter(arr, index);
          var inner;
          found, inner := RemoveNestedItem(scanned, item);
          FoundIffOccurs(scanned, item);
          if found {
            result := result[index := Rebuild(el, inner)];
            FirstHitInside(arr, item, index);
          }
        }
      }
      index := index + 1;
    }
    if !found {
      AbsentUnchanged(arr, item);
    }
  }

  /** The scan reports a hit exactly when the item occurs somewhere in the structure. */
  lemma {:induction false} FoundIffOccurs<T>(s: seq<Node<T>>, item: Node<T>)
    ensures RemoveFirst(s, item).found <==> OccursIn(s, item)
    decreases s, 0
  {
    if s != [] {
      if !StrictEq(s[0], item) {
        DescendFoundIffOccurs(s[0], item);
        FoundIffOccurs(s[1..], item);
        if OccursIn(s, item) {
          var k :| 0 <= k < |s| && Occurs(s[k], item);
          if k > 0 { assert Occurs(s[1..][k - 1], item); }
        }
        if OccursIn(s[1..], item) {
          var k :| 0 <= k < |s[1..]| && Occurs(s[1..][k], item);
          assert Occurs(s[k + 1], item);
        }
      } else {
        assert Occurs(s[0], item);
      }
    }
  }

  lemma {:induction false} DescendFoundIffOccurs<T>(n: Node<T>, item: Node<T>)
    ensures Descend(n, item).found <==> OccursIn(Children(n), item)
    decreases n, 1
  {
    match n
    case Leaf(_) =>
    case Arr(_, items) => FoundIffOccurs(items, item);
    case Obj(_, values) => FoundIffOccurs(values, item);
  }

  /** When the item occurs nowhere, the scan reports false and changes nothing. */
  lemma {:induction false} AbsentUnchanged<T>(s: seq<Node<T>>, item: Node<T>)
    requires !OccursIn(s, item)
    ensures RemoveFirst(s, item) == Removed(s, false)
    decreases s
  {
    if s != [] {
      assert !Occurs(s[0], item);
      DescendFoundIffOccurs(s[0], item);
      forall k | 0 <= k < |s[1..]| ensures !Occurs(s[1..][k], item) {
        assert s[1..][k] == s[k + 1];
      }
      AbsentUnchanged(s[1..], item);
      assert [s[0]] + s[1..] == s;
    }
  }

  /** Elements before index `i` neither are nor contain the item. */
  ghost predicate NoHitBefore<T>(s: seq<Node<T>>, item: Node<T>, i: int) {
    forall k :: 0 <= k < i && k < |s| ==> !Occurs(s[k], item)
  }

  /**
   * A first hit that is itself an element of the array is spliced out: the
   * array loses exactly that element and the others keep their order.
   */
  lemma {:induction false} FirstHitIsSpliced<T>(s: seq<Node<T>>, item: Node<T>, i: nat)
    requires i < |s| && StrictEq(s[i], item) && NoHitBefore(s, item, i)
    ensures RemoveFirst(s, item) == Removed(s[..i] + s[i + 1..], true)
    decreases i
  {
    if i == 0 {
      assert s[..i] + s[i + 1..] == s[1..];
    } else {
      assert !Occurs(s[0], item);
      DescendFoundIffOccurs(s[0], item);
      assert NoHitBefore(s[1..], item, i - 1) by {
        forall k | 0 <= k < i - 1 ensures !Occurs(s[1..][k], item) { assert s[1..][k] == s[k + 1]; }
      }
      FirstHitIsSpliced(s[1..], item, i - 1);
      assert s[1..][..i - 1] + s[1..][i..] == s[1..i] + s[i + 1..];
      assert [s[0]] + (s[1..i] + s[i + 1..]) == s[..i] + s[i + 1..];
    }
  }

  /**
   * A first hit that lies below the element at index `i` is handled by the
   * recursion into that element alone: every other element is unchanged.
   */
  lemma {:induction false} FirstHitInside<T>(s: seq<Node<T>>, item: Node<T>, i: nat)
    requires i < |s| && !StrictEq(s[i], item) && OccursIn(Children(s[i]), item) && NoHitBefore(s, item, i)
    ensures RemoveFirst(s, item) == Removed(s[i := Descend(s[i], item).value], true)
    ensures Descend(s[i], item) == Removed(Rebuild(s[i], RemoveFirst(Children(s[i]), item).value), true)
    decreases i
  {
    DescendFoundIffOccurs(s[i], item);
    if i == 0 {
      assert s[i := Descend(s[i], item).value] == [Descend(s[0], item).value] + s[1..];
    } else {
      assert !Occurs(s[0], item);
      DescendFoundIffOccurs(s[0], item);
      assert NoHitBefore(s[1..], item, i - 1) by {
        forall k | 0 <= k < i - 1 ensures !Occurs(s[1..][k], item) { assert s[1..][k] == s[k + 1]; }
      }
      FirstHitInside(s[1..], item, i - 1);
      assert [s[0]] + s[1..][i - 1 := Descend(s[i], item).value] == s[i := Descend(s[i], item).value];
    }
  }

  /**
   * A first hit that is a direct value of a plain object reports true but leaves
   * the object as it was: only the temporary copy of its values was spliced.
   */
  lemma ObjectDirectValueUnchanged<T>(r: nat, values: seq<Node<T>>, item: Node<T>, i: nat)
    requires i < |values| && StrictEq(values[i], item) && NoHitBefore(values, item, i)
    ensures Descend(Obj(r, values), item) == Removed(Obj(r, values), true)
  {
    FirstHitIsSpliced(values, item, i);
  }

  /** A structure built from arrays and primitives only. */
  predicate ArrayOnly<T>(s: seq<Node<T>>)
    decreases s, 0
  {
    forall k :: 0 <= k < |s| ==> ArrayOnlyNode(s[k])
  }

  predicate ArrayOnlyNode<T>(n: Node<T>)
    decreases n, 1
  {
    match n
    case Leaf(_) => true
    case Arr(_, items) => ArrayOnly(items)
    case Obj(_, _) => false
  }

  /** The number of nodes of `s`, at any depth, that are `===` to `item`. */
  function Count<T(==)>(s: seq<Node<T>>, item: Node<T>): nat
    decreases s, 0
  {
    if s == [] then 0 else CountNode(s[0], item) + Count(s[1..], item)
  }

  function CountNode<T(==)>(n: Node<T>, item: Node<T>): nat
    decreases n, 1
  {
    (if StrictEq(n, item) then 1 else 0) +
    match n
    case Leaf(_) => 0
    case Arr(_, items) => Count(items, item)
    case Obj(_, values) => Count(values, item)
  }

  /**
   * No array or object contains, at any depth, a node `===` to itself. Every
   * structure JavaScript can build without a cycle has this property.
   */
  predicate Acyclic<T(==)>(s: seq<Node<T>>)
    decreases s, 0
  {
    forall k :: 0 <= k < |s| ==> AcyclicNode(s[k])
  }

  predicate AcyclicNode<T(==)>(n: Node<T>)
    decreases n, 1
  {
    match n
    case Leaf(_) => true
    case Arr(_, items) => Count(items, n) == 0 && Acyclic(items)
    case Obj(_, values) => Count(values, n) == 0 && Acyclic(values)
  }

  /** Counting occurrences of two `===` items gives the same number. */
  lemma {:induction false} CountRespectsStrictEq<T>(s: seq<Node<T>>, a: Node<T>, b: Node<T>)
    requires StrictEq(a, b)
    ensures Count(s, a) == Count(s, b)
    decreases s, 0
  {
    if s != [] {
      CountNodeRespectsStrictEq(s[0], a, b);
      CountRespectsStrictEq(s[1..], a, b);
    }
  }

  lemma {:induction false} CountNodeRespectsStrictEq<T>(n: Node<T>, a: Node<T>, b: Node<T>)
    requires StrictEq(a, b)
    ensures CountNode(n, a) == CountNode(n, b)
    decreases n, 1
  {
    match n
    case Leaf(_) =>
    case Arr(_, items) => CountRespectsStrictEq(items, a, b);
    case Obj(_, values) => CountRespectsStrictEq(values, a, b);
  }

  /**
   * In a structure of arrays only, a scan that reports true lowers the number of
   * occurrences of the item by exactly one, and one that reports false by
   * nothing. This holds for a primitive item in any such structure, and for an
   * array item as soon as no array sits inside itself.
   */
  lemma {:induction false} ArrayOnlyCountDrops<T>(s: seq<Node<T>>, item: Node<T>)
    requires ArrayOnly(s) && (item.Leaf? || Acyclic(s))
    ensures var r := RemoveFirst(s, item);
      Count(r.value, item) == if r.found then Count(s, item) - 1 else Count(s, item)
    decreases s, 0
  {
    if s != [] {
      assert ArrayOnlyNode(s[0]);
      assert item.Leaf? || AcyclicNode(s[0]);
      assert ArrayOnly(s[1..]) && (item.Leaf? || Acyclic(s[1..])) by {
        forall k | 0 <= k < |s[1..]| ensures ArrayOnlyNode(s[1..][k]) && (item.Leaf? || AcyclicNode(s[1..][k])) {
          assert s[1..][k] == s[k + 1];
        }
      }
      if StrictEq(s[0], item) {
        if s[0].Arr? {
          CountRespectsStrictEq(s[0].items, s[0], item);
        }
        assert CountNode(s[0], item) == 1;
      } else {
        ArrayOnlyNodeCountDrops(s[0], item);
        var d := Descend(s[0], item);
        if d.found {
          assert ([d.value] + s[1..])[1..] == s[1..];
        } else {
          ArrayOnlyCountDrops(s[1..], item);
          assert ([s[0]] + RemoveFirst(s[1..], item).value)[1..] == RemoveFirst(s[1..], item).value;
        }
      }
    }
  }

  lemma {:induction false} ArrayOnlyNodeCountDrops<T>(n: Node<T>, item: Node<T>)
    requires ArrayOnlyNode(n) && (item.Leaf? || AcyclicNode(n)) && !StrictEq(n, item)
    ensures var d := Descend(n, item);
      CountNode(d.value, item) == if d.found then CountNode(n, item) - 1 else CountNode(n, item)
    decreases n, 1
  {
    match n
    case Leaf(_) =>
    case Arr(_, items) => ArrayOnlyCountDrops(items, item);
  }

  /**
   * `getChildNodeIndex(children, child)`: `Array.prototype.indexOf`, the first
   * position of `child` among `children`, or -1 when it is not one of them.
   */
  function GetChildNodeIndex<E(==)>(children: seq<E>, child: E): (r: int)
    ensures -1 <= r < |children|
    ensures r == -1 <==> child !in children
    ensures r >= 0 ==> children[r] == child && forall k :: 0 <= k < r ==> children[k] != child
  {
    if children == [] then -1
    else if children[0] == child then 0
    else
      var rest := GetChildNodeIndex(children[1..], child);
      if rest == -1 then -1 else rest + 1
  }
}

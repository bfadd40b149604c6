// The tree of samples, each node counting the samples to its left.
module OrderTree {
  import opened OrderStatistics

  class DataRun {
    const dataVal: real
    var lp: DataRun?
    var rp: DataRun?
    var count: nat

    constructor (v: real)
      ensures dataVal == v && lp == null && rp == null && count == 0
    {
      dataVal, lp, rp, count := v, null, null, 0;
    }
  }

  // The nodes of a tree, as they hang together.
  datatype Tree = Leaf | Node(left: Tree, ref: DataRun, right: Tree)

  ghost function Refs(t: Tree): set<DataRun> {
    match t
    case Leaf => {}
    case Node(l, n, r) => Refs(l) + {n} + Refs(r)
  }

  ghost predicate NoSharing(t: Tree) {
    t.Node? ==>
      NoSharing(t.left) && NoSharing(t.right) && Refs(t.left) !! Refs(t.right) && t.ref !in Refs(t.left) + Refs(t.right)
  }

  // Its samples from left to right.
  ghost function Elems(t: Tree): seq<real> {
    match t
    case Leaf => []
    case Node(l, n, r) => Elems(l) + [n.dataVal] + Elems(r)
  }

  // The tree at p is t, and every node counts the samples to its left.
  ghost predicate Shows(p: DataRun?, t: Tree)
    reads Refs(t)
    decreases t
  {
    match t
    case Leaf => p == null
    case Node(l, n, r) => p == n && Shows(n.lp, l) && Shows(n.rp, r) && n.count == |Elems(l)|
  }

  // The tree with a new node.
  ghost function Grown(t: Tree, w: DataRun): Tree {
    match t
    case Leaf => Node(Leaf, w, Leaf)
    case Node(l, n, r) => if w.dataVal < n.dataVal then Node(Grown(l, w), n, r) else Node(l, n, Grown(r, w))
  }

  lemma {:induction false} GrownRefs(t: Tree, w: DataRun)
    requires NoSharing(t) && w !in Refs(t)
    ensures Refs(Grown(t, w)) == Refs(t) + {w} && NoSharing(Grown(t, w))
  {
    if t.Node? {
      if w.dataVal < t.ref.dataVal {
        GrownRefs(t.left, w);
      } else {
        GrownRefs(t.right, w);
      }
    }
  }

  // Reading the grown tree from left to right is inserting into the sorted sequence, so
  // the tree stays a search tree.
  lemma {:induction false} GrownElems(t: Tree, w: DataRun)
    requires Sorted(Elems(t))
    ensures Elems(Grown(t, w)) == Insert(Elems(t), w.dataVal)
  {
    if t.Node? {
      PartsSorted(Elems(t.left), t.ref.dataVal, Elems(t.right));
      InsertDescends(Elems(t.left), t.ref.dataVal, Elems(t.right), w.dataVal);
      if w.dataVal < t.ref.dataVal {
        GrownElems(t.left, w);
      } else {
        GrownElems(t.right, w);
      }
    }
  }

  lemma {:induction false} GrownCount(t: Tree, w: DataRun)
    ensures |Elems(Grown(t, w))| == |Elems(t)| + 1
  {
    if t.Node? {
      if w.dataVal < t.ref.dataVal {
        GrownCount(t.left, w);
      } else {
        GrownCount(t.right, w);
      }
    }
  }

  ghost predicate Single(wmp: DataRun)
    reads wmp
  {
    wmp.lp == null && wmp.rp == null && wmp.count == 0
  }

  // insert_sort: the tree that takes the place of mp. Its nodes are among repr: the members
  // of a set parameter are known to be allocated, those of a datatype are not.
  method InsertSort(mp: DataRun?, wmp: DataRun, ghost t: Tree, ghost repr: set<DataRun>) returns (root: DataRun)
    requires Shows(mp, t) && NoSharing(t) && Refs(t) <= repr && wmp !in Refs(t) && Single(wmp)
    modifies Refs(t)
    ensures Shows(root, Grown(t, wmp))
    decreases t, 1
  {
    if mp == null {
      return wmp;
    }
    if wmp.dataVal < mp.dataVal {
      InsertLeft(mp, wmp, t, repr);
    } else {
      InsertRight(mp, wmp, t, repr);
    }
    return mp;
  }

  method InsertLeft(mp: DataRun, wmp: DataRun, ghost t: Tree, ghost repr: set<DataRun>)
    requires t.Node? && Shows(mp, t) && NoSharing(t) && Refs(t) <= repr && wmp !in Refs(t) && Single(wmp) &&
             wmp.dataVal < mp.dataVal
    modifies Refs(t)
    ensures Shows(mp, Grown(t, wmp))
    decreases t, 0
  {
    ghost var l, r := t.left, t.right;
    GrownRefs(l, wmp);
    GrownCount(l, wmp);
    var rp := mp.rp;
    mp.count := mp.count + 1;
    assert Shows(mp.lp, l) && Shows(rp, r);
    var lp := InsertSort(mp.lp, wmp, l, repr);
    assert mp.rp == rp && Shows(rp, r) && mp.count == |Elems(Grown(l, wmp))|;
    mp.lp := lp;
    assert Shows(mp.lp, Grown(l, wmp)) && Shows(rp, r);
  }

  method InsertRight(mp: DataRun, wmp: DataRun, ghost t: Tree, ghost repr: set<DataRun>)
    requires t.Node? && Shows(mp, t) && NoSharing(t) && Refs(t) <= repr && wmp !in Refs(t) && Single(wmp) &&
             mp.dataVal <= wmp.dataVal
    modifies Refs(t)
    ensures Shows(mp, Grown(t, wmp))
    decreases t, 0
  {
    ghost var l, r := t.left, t.right;
    GrownRefs(r, wmp);
    var rp := InsertSort(mp.rp, wmp, r, repr);
    assert Shows(mp.lp, l) && mp.count == |Elems(l)|;
    mp.rp := rp;
    assert Shows(mp.lp, l) && Shows(rp, Grown(r, wmp));
  }

  // The samples as print_list writes them.
  function PrintList(list: DataRun?, ghost t: Tree): (s: seq<real>)
    requires Shows(list, t)
    reads Refs(t)
    ensures s == Elems(t)
    decreases t
  {
    if list == null then [] else PrintList(list.lp, t.left) + [list.dataVal] + PrintList(list.rp, t.right)
  }

  // _get_list: the node of the sample with so many before it.
  function GetNode(p: DataRun, index: nat, ghost t: Tree): (q: DataRun)
    requires Shows(p, t) && index < |Elems(t)|
    reads Refs(t)
    ensures q in Refs(t) && q.dataVal == Elems(t)[index]
    decreases t
  {
    assert t.Node? && Shows(p.lp, t.left) && Shows(p.rp, t.right);
    assert |Elems(t)| == p.count + 1 + |Elems(t.right)|;
    if index == p.count then p
    else if index < p.count then GetNode(p.lp, index, t.left)
    else GetNode(p.rp, index - p.count - 1, t.right)
  }

  function Clamp(index: int, numSamples: nat): (k: nat)
    requires numSamples > 0
    ensures k < numSamples
  {
    if index < 0 then 0 else if index > numSamples - 1 then numSamples - 1 else index
  }

  // get_list, over a tree of all samples so far.
  function GetList(p: DataRun, index: int, numSamples: nat, ghost t: Tree): (v: real)
    requires Shows(p, t) && 0 < numSamples == |Elems(t)|
    reads Refs(t)
    ensures v == Elems(t)[Clamp(index, numSamples)]
  {
    if index < 0 then GetNode(p, 0, t).dataVal
    else if index > numSamples - 1 then GetNode(p, numSamples - 1, t).dataVal
    else GetNode(p, index, t).dataVal
  }

  lemma ClampedIsMonotone(xs: seq<real>, i: int, j: int)
    requires xs != [] && i <= j
    ensures |InOrder(xs)| == |xs|
    ensures InOrder(xs)[Clamp(i, |xs|)] <= InOrder(xs)[Clamp(j, |xs|)]
  {
    InOrderSorts(xs);
  }

  lemma Continues(xs: seq<real>, t: Tree, w: DataRun)
    requires Elems(t) == InOrder(xs) && NoSharing(t) && w !in Refs(t)
    ensures Elems(Grown(t, w)) == InOrder(xs + [w.dataVal])
    ensures NoSharing(Grown(t, w)) && Refs(Grown(t, w)) == Refs(t) + {w}
  {
    InOrderSorts(xs);
    GrownElems(t, w);
    GrownRefs(t, w);
    assert (xs + [w.dataVal])[..|xs|] == xs;
  }

  // One column of output.
  class Column {
    var tree: DataRun?
    var numSamples: nat
    ghost var shape: Tree
    ghost var repr: set<DataRun>
    // The samples in the order they came.
    ghost var history: seq<real>

    constructor ()
      ensures Valid() && history == []
    {
      tree, numSamples, shape, repr, history := null, 0, Leaf, {}, [];
    }

    ghost predicate Valid()
      reads this, repr
    {
      && repr == Refs(shape) && Shows(tree, shape) && NoSharing(shape) && numSamples == |history|
      && Elems(shape) == InOrder(history)
    }

    // What save_data does with a sample of a percentile column.
    method SaveData(value: real)
      requires Valid()
      modifies this, repr
      ensures Valid() && history == old(history) + [value]
    {
      ghost var t := shape;
      var root, wmp := Add(tree, value, t, repr);
      Continues(history, t, wmp);
      numSamples := numSamples + 1;
      tree, shape, repr, history := root, Grown(t, wmp), repr + {wmp}, history + [value];
    }

    static method Add(p: DataRun?, value: real, ghost t: Tree, ghost repr: set<DataRun>)
      returns (root: DataRun, wmp: DataRun)
      requires Shows(p, t) && NoSharing(t) && Refs(t) <= repr
      modifies Refs(t)
      ensures fresh(wmp) && wmp.dataVal == value && Shows(root, Grown(t, wmp))
    {
      wmp := new DataRun(value);
      root := InsertSort(p, wmp, t, repr);
    }

    // The clamped index selects an order statistic of all samples.
    method Quantile(index: int) returns (v: real)
      requires Valid() && numSamples > 0
      ensures |InOrder(history)| == |history| && v in history
      ensures v == InOrder(history)[Clamp(index, |history|)]
      ensures 0 <= index < |history| ==> Below(history, v) <= index < AtMost(history, v)
      ensures index < 0 ==> Below(history, v) == 0
      ensures |history| <= index ==> AtMost(history, v) == |history|
    {
      InOrderSorts(history);
      OrderStatistic(history, Clamp(index, |history|));
      AtMostLength(history, InOrder(history)[Clamp(index, |history|)]);
      v := GetList(tree, index, numSamples, shape);
      assert v in multiset(InOrder(history));
    }
  }
}

/**
  * The name-keyed file index of the three later drafts (`RSNode` in
  * rootsense_utils.py, `RSTree` in Brazil/rootsense_classes.py and `RSTree`
  * in rootsense_classes.py), as a value.
  *
  * The three drafts share one insertion rule: an item whose name equals the
  * node's replaces the node's item, a smaller name goes left and any other
  * name goes right.  Each function here follows the recursion of the drafts'
  * methods; the lemmas state what the recursion means for the dictionary
  * the tree stands for (`Contents`).  The heap classes of the drafts are
  * proved to follow these functions.
  */
module NameTree {
  import opened Names
  import opened Items

  datatype Tree = Leaf | Node(item: Item, left: Tree, right: Tree)

  /** The dictionary a tree stands for: each stored name to its stored item. */
  function Contents(t: Tree): map<string, Item>
  {
    match t
    case Leaf => map[]
    case Node(x, l, r) => (Contents(l) + Contents(r))[x.fileName := x]
  }

  function Keys(t: Tree): set<string>
  {
    Contents(t).Keys
  }

  /** The search-tree ordering: every name on the left is smaller, every name on the right larger. */
  ghost predicate Ordered(t: Tree)
  {
    match t
    case Leaf => true
    case Node(x, l, r) =>
      && Ordered(l)
      && Ordered(r)
      && (forall k :: k in Keys(l) ==> Less(k, x.fileName))
      && (forall k :: k in Keys(r) ==> Less(x.fileName, k))
  }

  /** In an ordered tree the two subtrees and the node's own name share no name. */
  lemma OrderedParts(t: Tree)
    requires Ordered(t) && t.Node?
    ensures Keys(t.left) !! Keys(t.right)
    ensures t.item.fileName !in Keys(t.left) && t.item.fileName !in Keys(t.right)
    ensures Keys(t) == Keys(t.left) + Keys(t.right) + {t.item.fileName}
  {
    var n := t.item.fileName;
    LessIrreflexive(n);
    forall k | k in Keys(t.left) && k in Keys(t.right)
      ensures false
    {
      LessAsymmetric(k, n);
    }
  }

  // ---------------------------------------------------------------- dictionary facts

  /** Storing under `k1` below a store under a different `k2` may be done last instead. */
  lemma UpdateLeftLater<V>(a: map<string, V>, b: map<string, V>, k1: string, v1: V, k2: string, v2: V)
    requires k1 != k2 && k1 !in b
    ensures (a[k1 := v1] + b)[k2 := v2] == ((a + b)[k2 := v2])[k1 := v1]
  {
    var lhs, rhs := (a[k1 := v1] + b)[k2 := v2], ((a + b)[k2 := v2])[k1 := v1];
    assert lhs.Keys == rhs.Keys;
    forall k | k in lhs
      ensures lhs[k] == rhs[k]
    {
    }
  }

  lemma UpdateRightLater<V>(a: map<string, V>, b: map<string, V>, k1: string, v1: V, k2: string, v2: V)
    requires k1 != k2
    ensures (a + b[k1 := v1])[k2 := v2] == ((a + b)[k2 := v2])[k1 := v1]
  {
    var lhs, rhs := (a + b[k1 := v1])[k2 := v2], ((a + b)[k2 := v2])[k1 := v1];
    assert lhs.Keys == rhs.Keys;
    forall k | k in lhs
      ensures lhs[k] == rhs[k]
    {
    }
  }

  lemma UpdateUnder<V>(a: map<string, V>, b: map<string, V>, c: map<string, V>, k: string, v: V)
    requires k !in b && k !in c
    ensures a[k := v] + b + c == a + (b + c)[k := v]
  {
    var lhs, rhs := a[k := v] + b + c, a + (b + c)[k := v];
    assert lhs.Keys == rhs.Keys;
    forall j | j in lhs
      ensures lhs[j] == rhs[j]
    {
    }
  }

  lemma UnionAssociative<V>(a: map<string, V>, b: map<string, V>, c: map<string, V>)
    ensures a + b + c == a + (b + c)
  {
    var lhs, rhs := a + b + c, a + (b + c);
    assert lhs.Keys == rhs.Keys;
    forall j | j in lhs
      ensures lhs[j] == rhs[j]
    {
    }
  }

  // ---------------------------------------------------------------- insert

  /** `insert`: store `x` under its name, replacing an item with the same name. */
  function Insert(t: Tree, x: Item): (r: Tree)
    ensures Keys(r) == Keys(t) + {x.fileName}
  {
    match t
    case Leaf => Node(x, Leaf, Leaf)
    case Node(y, l, rt) =>
      if x.Eq(y) then Node(x, l, rt)
      else if x.Lt(y) then Node(y, Insert(l, x), rt)
      else Node(y, l, Insert(rt, x))
  }

  /** Insertion keeps the ordering. */
  lemma {:induction false} InsertOrdered(t: Tree, x: Item)
    requires Ordered(t)
    ensures Ordered(Insert(t, x))
  {
    match t
    case Leaf =>
    case Node(y, l, rt) =>
      if x.Lt(y) {
        InsertOrdered(l, x);
      } else if !x.Eq(y) {
        Trichotomy(x.fileName, y.fileName);
        InsertOrdered(rt, x);
      }
  }

  /** In an ordered tree the dictionary gains `x` under its name, replacing what was stored there (last write wins). */
  lemma {:induction false} InsertContents(t: Tree, x: Item)
    requires Ordered(t)
    ensures Contents(Insert(t, x)) == Contents(t)[x.fileName := x]
  {
    match t
    case Leaf =>
    case Node(y, l, rt) =>
      OrderedParts(t);
      if x.Eq(y) {
      } else if x.Lt(y) {
        InsertContents(l, x);
        assert x.fileName !in Keys(rt) by {
          if x.fileName in Keys(rt) {
            LessAsymmetric(x.fileName, y.fileName);
          }
        }
        UpdateLeftLater(Contents(l), Contents(rt), x.fileName, x, y.fileName, y);
      } else {
        Trichotomy(x.fileName, y.fileName);
        InsertContents(rt, x);
        UpdateRightLater(Contents(l), Contents(rt), x.fileName, x, y.fileName, y);
      }
  }

  /** Inserting a run of items one after the other (the directory walks). */
  function InsertAll(t: Tree, xs: seq<Item>): (r: Tree)
    ensures Keys(r) == Keys(t) + NamesOf(xs)
  {
    if |xs| == 0 then t else Insert(InsertAll(t, xs[..|xs| - 1]), xs[|xs| - 1])
  }

  /** The names of a run of items. */
  function NamesOf(xs: seq<Item>): (names: set<string>)
    ensures forall k :: k in names <==> exists i :: 0 <= i < |xs| && xs[i].fileName == k
  {
    if |xs| == 0 then {}
    else
      var init := xs[..|xs| - 1];
      var names := NamesOf(init) + {xs[|xs| - 1].fileName};
      assert forall i :: 0 <= i < |init| ==> init[i] == xs[i];
      names
  }

  /** A run of items as a dictionary: each name to the last item in the run with that name. */
  function LastWins(xs: seq<Item>): (m: map<string, Item>)
    ensures m.Keys == NamesOf(xs)
  {
    if |xs| == 0 then map[] else LastWins(xs[..|xs| - 1])[xs[|xs| - 1].fileName := xs[|xs| - 1]]
  }

  /** Inserting one more item after a run is one more `insert`. */
  lemma InsertAllSnoc(t: Tree, xs: seq<Item>, x: Item)
    ensures InsertAll(t, xs + [x]) == Insert(InsertAll(t, xs), x)
  {
    assert (xs + [x])[..|xs|] == xs;
  }

  /** Inserting a run into a tree is inserting its first part and then the rest. */
  lemma {:induction false} InsertAllAppend(t: Tree, xs: seq<Item>, ys: seq<Item>)
    ensures InsertAll(t, xs + ys) == InsertAll(InsertAll(t, xs), ys)
    decreases |ys|
  {
    if |ys| > 0 {
      var init := ys[..|ys| - 1];
      assert (xs + ys)[..|xs + ys| - 1] == xs + init;
      InsertAllAppend(t, xs, init);
    } else {
      assert xs + ys == xs;
    }
  }

  /**
    * Inserting a run into an ordered tree keeps it ordered, and the
    * dictionary gains every item of the run, a later item winning over an
    * earlier one and over what was stored.
    */
  lemma {:induction false} InsertAllContents(t: Tree, xs: seq<Item>)
    requires Ordered(t)
    ensures Ordered(InsertAll(t, xs))
    ensures Contents(InsertAll(t, xs)) == Contents(t) + LastWins(xs)
  {
    if |xs| > 0 {
      var init, x := xs[..|xs| - 1], xs[|xs| - 1];
      InsertAllContents(t, init);
      InsertOrdered(InsertAll(t, init), x);
      InsertContents(InsertAll(t, init), x);
      var lhs, rhs := (Contents(t) + LastWins(init))[x.fileName := x], Contents(t) + LastWins(init)[x.fileName := x];
      assert lhs.Keys == rhs.Keys;
      assert forall k | k in lhs :: lhs[k] == rhs[k];
    }
  }

  // ---------------------------------------------------------------- size and depth

  /** `size`: the number of nodes. */
  function Size(t: Tree): nat
  {
    match t
    case Leaf => 0
    case Node(_, l, r) => 1 + Size(l) + Size(r)
  }

  /** `depth`: the number of nodes on the longest path from the root. */
  function Depth(t: Tree): nat
  {
    match t
    case Leaf => 0
    case Node(_, l, r) => 1 + if Depth(l) < Depth(r) then Depth(r) else Depth(l)
  }

  /** In an ordered tree, `size` counts the distinct names stored. */
  lemma {:induction false} SizeIsKeyCount(t: Tree)
    requires Ordered(t)
    ensures Size(t) == |Keys(t)|
  {
    match t
    case Leaf =>
    case Node(x, l, r) =>
      SizeIsKeyCount(l);
      SizeIsKeyCount(r);
      OrderedParts(t);
      assert Keys(l) * Keys(r) == {};
  }

  /** Inserting a stored name leaves `size` alone; inserting a new one adds exactly one. */
  lemma InsertSize(t: Tree, x: Item)
    requires Ordered(t)
    ensures Size(Insert(t, x)) == Size(t) + (if x.fileName in Keys(t) then 0 else 1)
  {
    var r := Insert(t, x);
    InsertOrdered(t, x);
    SizeIsKeyCount(t);
    SizeIsKeyCount(r);
    if x.fileName in Keys(t) {
      assert Keys(r) == Keys(t);
    } else {
      assert |Keys(r)| == |Keys(t)| + 1;
    }
  }

  /** Both `size` and `depth` are 0 exactly on the empty tree, and otherwise 1 <= depth <= size. */
  lemma {:induction false} DepthBounds(t: Tree)
    ensures Size(t) == 0 <==> t == Leaf
    ensures Depth(t) == 0 <==> t == Leaf
    ensures Depth(t) <= Size(t)
  {
    match t
    case Leaf =>
    case Node(_, l, r) =>
      DepthBounds(l);
      DepthBounds(r);
  }

  // ---------------------------------------------------------------- membership and lookup

  /** `__contains__`: walk the search path for `k`. */
  function Member(t: Tree, k: string): (b: bool)
    ensures b ==> k in Keys(t)
  {
    match t
    case Leaf => false
    case Node(x, l, r) =>
      if x.fileName == k then true
      else if Less(k, x.fileName) then Member(l, k)
      else if Less(x.fileName, k) then Member(r, k)
      else false
  }

  /** In an ordered tree the search path finds every stored name: `k in tree` iff `k` is a stored name. */
  lemma {:induction false} MemberCorrect(t: Tree, k: string)
    requires Ordered(t)
    ensures Member(t, k) <==> k in Keys(t)
  {
    match t
    case Leaf =>
    case Node(x, l, r) =>
      if x.fileName == k {
      } else if Less(k, x.fileName) {
        MemberCorrect(l, k);
        assert k !in Keys(r) by {
          if k in Keys(r) {
            LessAsymmetric(k, x.fileName);
          }
        }
      } else if Less(x.fileName, k) {
        MemberCorrect(r, k);
        assert k !in Keys(l) by {
          if k in Keys(l) {
            LessAsymmetric(k, x.fileName);
          }
        }
      } else {
        LessTotal(k, x.fileName);
      }
  }

  /** `__getitem__`: `KeyError` unless `k in tree`, else the item on the search path. */
  function Lookup(t: Tree, k: string): (r: Result<Item>)
    ensures r.Ok? <==> Member(t, k)
    ensures r.Ok? ==> r.value.fileName == k
    ensures r.Err? ==> r.error == KeyError(k)
  {
    if t.Leaf? || !Member(t, k) then Err(KeyError(k))
    else if t.item.fileName == k then Ok(t.item)
    else if Less(k, t.item.fileName) then Lookup(t.left, k)
    else Lookup(t.right, k)
  }

  /** In an ordered tree, `tree[k]` is the stored item named `k`, and `KeyError` exactly when there is none. */
  lemma {:induction false} LookupCorrect(t: Tree, k: string)
    requires Ordered(t)
    ensures Lookup(t, k) == if k in Contents(t) then Ok(Contents(t)[k]) else Err(KeyError(k))
  {
    MemberCorrect(t, k);
    match t
    case Leaf =>
    case Node(x, l, r) =>
      if k in Keys(t) && x.fileName != k {
        OrderedParts(t);
        if Less(k, x.fileName) {
          LookupCorrect(l, k);
          assert k !in Keys(r) by {
            if k in Keys(r) {
              LessAsymmetric(k, x.fileName);
            }
          }
        } else {
          Trichotomy(k, x.fileName);
          LookupCorrect(r, k);
          assert k !in Keys(l) by {
            if k in Keys(l) {
              LessAsymmetric(k, x.fileName);
            }
          }
        }
      }
  }

  // ---------------------------------------------------------------- union

  /**
    * `a | b`: insert the other tree's root item, then merge in its left and
    * its right subtree, in that order.
    */
  function Union(t: Tree, o: Tree): (r: Tree)
    ensures Keys(r) == Keys(t) + Keys(o)
    decreases o
  {
    match o
    case Leaf => t
    case Node(x, l, rt) => Union(Union(Insert(t, x), l), rt)
  }

  /** The union of two ordered trees is ordered, holds every name of both, and takes the other tree's item on a shared name. */
  lemma {:induction false} UnionContents(t: Tree, o: Tree)
    requires Ordered(t) && Ordered(o)
    ensures Ordered(Union(t, o))
    ensures Contents(Union(t, o)) == Contents(t) + Contents(o)
    decreases o
  {
    match o
    case Leaf =>
      assert Contents(t) + Contents(o) == Contents(t);
    case Node(x, l, rt) =>
      OrderedParts(o);
      InsertOrdered(t, x);
      InsertContents(t, x);
      var t1 := Insert(t, x);
      UnionContents(t1, l);
      var t2 := Union(t1, l);
      UnionContents(t2, rt);
      UpdateUnder(Contents(t), Contents(l), Contents(rt), x.fileName, x);
  }

  /** Merging a run of trees into `t`, one after the other (`merge`, `from_tree_list`). */
  function UnionAll(t: Tree, os: seq<Tree>): (r: Tree)
    ensures Keys(r) == Keys(t) + KeysAll(os)
  {
    if |os| == 0 then t else Union(UnionAll(t, os[..|os| - 1]), os[|os| - 1])
  }

  /** Merging the trees up to `os[i]` is merging those before it, then one more union. */
  lemma UnionAllPrefix(t: Tree, os: seq<Tree>, i: nat)
    requires i < |os|
    ensures UnionAll(t, os[..i + 1]) == Union(UnionAll(t, os[..i]), os[i])
  {
    assert os[..i + 1][..i] == os[..i];
  }

  /** Every name stored in some tree of `os`. */
  function KeysAll(os: seq<Tree>): set<string>
  {
    if |os| == 0 then {} else KeysAll(os[..|os| - 1]) + Keys(os[|os| - 1])
  }

  /** The dictionaries of `os` combined left to right, a later tree winning on a shared name. */
  function ContentsAll(os: seq<Tree>): (m: map<string, Item>)
    ensures m.Keys == KeysAll(os)
  {
    if |os| == 0 then map[] else ContentsAll(os[..|os| - 1]) + Contents(os[|os| - 1])
  }

  /** Merging a run of ordered trees gives an ordered tree whose dictionary is theirs combined, later ones winning. */
  lemma {:induction false} UnionAllContents(t: Tree, os: seq<Tree>)
    requires Ordered(t)
    requires forall i :: 0 <= i < |os| ==> Ordered(os[i])
    ensures Ordered(UnionAll(t, os))
    ensures Contents(UnionAll(t, os)) == Contents(t) + ContentsAll(os)
  {
    if |os| > 0 {
      var init := os[..|os| - 1];
      UnionAllContents(t, init);
      UnionContents(UnionAll(t, init), os[|os| - 1]);
      UnionAssociative(Contents(t), ContentsAll(init), Contents(os[|os| - 1]));
    }
  }

  // ---------------------------------------------------------------- the seen mark

  /** `mark_as_seen` on a stored name: the item on the search path for `k` gets `seen == True`. */
  function MarkSeen(t: Tree, k: string): (r: Tree)
    ensures Keys(r) == Keys(t)
    ensures Size(r) == Size(t) && Depth(r) == Depth(t)
  {
    match t
    case Leaf => Leaf
    case Node(x, l, rt) =>
      if x.fileName == k then Node(x.(seen := true), l, rt)
      else if Less(k, x.fileName) then Node(x, MarkSeen(l, k), rt)
      else Node(x, l, MarkSeen(rt, k))
  }

  /** Marking keeps the ordering: only a `seen` flag changes. */
  lemma {:induction false} MarkSeenOrdered(t: Tree, k: string)
    requires Ordered(t)
    ensures Ordered(MarkSeen(t, k))
  {
    match t
    case Leaf =>
    case Node(x, l, r) =>
      if x.fileName == k {
        assert MarkSeen(t, k) == Node(x.(seen := true), l, r);
      } else if Less(k, x.fileName) {
        MarkSeenOrdered(l, k);
        assert MarkSeen(t, k) == Node(x, MarkSeen(l, k), r);
      } else {
        MarkSeenOrdered(r, k);
        assert MarkSeen(t, k) == Node(x, l, MarkSeen(r, k));
      }
  }

  /** Marking a stored name keeps the ordering and changes that entry's `seen` and nothing else. */
  lemma {:induction false} MarkSeenContents(t: Tree, k: string)
    requires Ordered(t) && k in Keys(t)
    ensures Ordered(MarkSeen(t, k))
    ensures Contents(MarkSeen(t, k)) == Contents(t)[k := Contents(t)[k].(seen := true)]
  {
    match t
    case Leaf =>
    case Node(x, l, r) =>
      OrderedParts(t);
      if x.fileName == k {
      } else if Less(k, x.fileName) {
        assert k !in Keys(r) by {
          if k in Keys(r) {
            LessAsymmetric(k, x.fileName);
          }
        }
        MarkSeenContents(l, k);
        UpdateLeftLater(Contents(l), Contents(r), k, Contents(l)[k].(seen := true), x.fileName, x);
      } else {
        Trichotomy(k, x.fileName);
        assert k !in Keys(l) by {
          if k in Keys(l) {
            LessAsymmetric(k, x.fileName);
          }
        }
        MarkSeenContents(r, k);
        UpdateRightLater(Contents(l), Contents(r), k, Contents(r)[k].(seen := true), x.fileName, x);
      }
  }

  /**
    * After `mark_as_seen(k)` a lookup of `k` reports `seen`, and a lookup of
    * any other name returns what it returned before.
    */
  lemma MarkThenLookup(t: Tree, k: string, j: string)
    requires Ordered(t) && k in Keys(t)
    ensures Lookup(MarkSeen(t, k), k).Ok? && Lookup(MarkSeen(t, k), k).value.seen
    ensures j != k ==> Lookup(MarkSeen(t, k), j) == Lookup(t, j)
  {
    MarkSeenContents(t, k);
    LookupCorrect(t, k);
    LookupCorrect(t, j);
    LookupCorrect(MarkSeen(t, k), k);
    LookupCorrect(MarkSeen(t, k), j);
  }
}

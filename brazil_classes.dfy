/**
  * `RSTree` of Brazil/rootsense_classes.py: the name-keyed file index as
  * linked nodes, in the draft that adds `merge`, `from_tree_list` and
  * `has_been_seen`.  Each node holds an optional item (`_item`) and two
  * optional children.
  *
  * As in module RootsenseUtils, `Model` is the tree the node stands for
  * (module NameTree) and `Repr` the nodes it is made of; every method is
  * proved to act on `Model` as the NameTree function of the same name.
  */
module BrazilClasses {
  import opened Names
  import opened Items
  import opened NameTree

  class RSTree {
    var item: Option<Item>
    var left: RSTree?
    var right: RSTree?
    ghost var Model: Tree
    ghost var Repr: set<object>

    ghost predicate Valid()
      reads this, Repr
      decreases Repr
    {
      && this in Repr
      && (left != null ==> left in Repr && left.Repr <= Repr && this !in left.Repr && left.Valid())
      && (right != null ==> right in Repr && right.Repr <= Repr && this !in right.Repr && right.Valid())
      && (left != null && right != null ==> left.Repr !! right.Repr)
      && (item.None? ==> left == null && right == null)
      && (item.None? ==> Model == Leaf)
      && (item.Some? ==> Model == Node(item.value, Sub(left), Sub(right)))
      && Ordered(Model)
    }

    /** The tree a possibly absent child stands for. */
    static ghost function Sub(n: RSTree?): Tree
      reads n
    {
      if n == null then Leaf else n.Model
    }

    /** `RSTree()`: the empty index. */
    constructor ()
      ensures Valid() && fresh(Repr)
      ensures Model == Leaf
    {
      item := None;
      left := null;
      right := null;
      Model := Leaf;
      Repr := {this};
    }

    /** `insert(item)`: an empty node takes the item; an equal name replaces it; smaller goes left, the rest right. */
    method Insert(x: Item)
      requires Valid()
      modifies Repr
      ensures Valid() && fresh(Repr - old(Repr))
      ensures Model == NameTree.Insert(old(Model), x)
      decreases Model, 1
    {
      if item.None? {
        item := Some(x);
        Model := Node(x, Leaf, Leaf);
      } else if x.Eq(item.value) {
        item := Some(x);
        Model := Node(x, Sub(left), Sub(right));
      } else if x.Lt(item.value) {
        InsertLeft(x);
      } else {
        InsertRight(x);
      }
    }

    /** The branch of `insert` for a smaller name: create the left child if absent, then insert there. */
    method InsertLeft(x: Item)
      requires Valid() && item.Some? && !x.Eq(item.value) && x.Lt(item.value)
      modifies Repr
      ensures Valid() && fresh(Repr - old(Repr))
      ensures Model == NameTree.Insert(old(Model), x)
      decreases Model, 0
    {
      if left == null {
        AddLeft();
      }
      left.Insert(x);
      Repr := Repr + left.Repr;
      Model := Node(item.value, left.Model, Sub(right));
      InsertOrdered(old(Model), x);
    }

    /** The branch of `insert` for a larger name: create the right child if absent, then insert there. */
    method InsertRight(x: Item)
      requires Valid() && item.Some? && !x.Eq(item.value) && !x.Lt(item.value)
      modifies Repr
      ensures Valid() && fresh(Repr - old(Repr))
      ensures Model == NameTree.Insert(old(Model), x)
      decreases Model, 0
    {
      if right == null {
        AddRight();
      }
      right.Insert(x);
      Repr := Repr + right.Repr;
      Model := Node(item.value, Sub(left), right.Model);
      InsertOrdered(old(Model), x);
    }

    /** `self._left = RSTree()`: an empty child stands for the same tree as no child. */
    method AddLeft()
      requires Valid() && item.Some? && left == null
      modifies this
      ensures Valid() && left != null && fresh(Repr - old(Repr))
      ensures Model == old(Model) && right == old(right) && item == old(item)
    {
      left := new RSTree();
      Repr := Repr + left.Repr;
    }

    /** `self._right = RSTree()`. */
    method AddRight()
      requires Valid() && item.Some? && right == null
      modifies this
      ensures Valid() && right != null && fresh(Repr - old(Repr))
      ensures Model == old(Model) && left == old(left) && item == old(item)
    {
      right := new RSTree();
      Repr := Repr + right.Repr;
    }

    /**
      * `insert([name, path])`: a list is turned into an item by
      * `_RSItem(*item)`, which raises `TypeError` unless it has one to three
      * elements; nothing is inserted then.
      */
    method InsertArgs(args: seq<string>) returns (r: Result<()>)
      requires Valid()
      modifies Repr
      ensures Valid() && fresh(Repr - old(Repr))
      ensures r.Ok? <==> 1 <= |args| <= 3
      ensures r.Err? ==> r.error == TypeError && Model == old(Model)
      ensures r.Ok? ==> Model == NameTree.Insert(old(Model), ItemOfArgs(args).value)
    {
      var x := ItemOfArgs(args);
      if x.Err? {
        return Err(TypeError);
      }
      Insert(x.value);
      return Ok(());
    }

    /**
      * `name in tree`: false on an empty node, true on a node with the name;
      * otherwise a name `<=` the node's is looked for on the left and any other
      * on the right, an absent child meaning false.
      */
    function Contains(k: string): (b: bool)
      reads Repr
      requires Valid()
      ensures b == Member(Model, k)
      ensures b <==> k in Keys(Model)
      decreases Repr
    {
      MemberCorrect(Model, k);
      var key := Named(k);
      if item.None? then false
      else if item.value.Eq(key) then true
      else if key.Le(item.value) then left != null && left.Contains(k)
      else right != null && right.Contains(k)
    }

    /** `tree[name]`: `KeyError` unless the name is stored, else the stored item with that name. */
    function Get(k: string): (r: Result<Item>)
      reads Repr
      requires Valid()
      ensures r == Lookup(Model, k)
      ensures r == if k in Contents(Model) then Ok(Contents(Model)[k]) else Err(KeyError(k))
      decreases Repr
    {
      LookupCorrect(Model, k);
      var key := Named(k);
      if item.None? || !Contains(k) then Err(KeyError(k))
      else if key.Eq(item.value) then Ok(item.value)
      else if key.Le(item.value) then
        assert left != null by {
          MemberCorrect(Model, k);
        }
        left.Get(k)
      else
        assert right != null by {
          MemberCorrect(Model, k);
        }
        right.Get(k)
    }

    /**
      * `self | other`: a non-tree (`null`) raises `TypeError`; otherwise
      * insert the other root's item if any, then merge in its left and its
      * right subtree, and return this index.
      */
    method Or(other: RSTree?) returns (r: Result<RSTree>)
      requires Valid()
      requires other != null ==> other.Valid() && Repr !! other.Repr
      modifies Repr
      ensures Valid() && fresh(Repr - old(Repr))
      ensures other == null ==> r == Err(TypeError) && Model == old(Model)
      ensures other != null ==> r == Ok(this) && Model == Union(old(Model), other.Model)
      decreases if other == null then {} else other.Repr
    {
      if other == null {
        return Err(TypeError);
      }
      if other.item.Some? {
        Insert(other.item.value);
      }
      if other.left != null {
        var _ := Or(other.left);
      }
      if other.right != null {
        var _ := Or(other.right);
      }
      return Ok(this);
    }

    /** The trees a run of arguments stands for (`null` for a non-tree contributes nothing). */
    static ghost function Models(os: seq<RSTree?>): (ms: seq<Tree>)
      reads os
      ensures |ms| == |os|
    {
      if |os| == 0 then [] else Models(os[..|os| - 1]) + [Sub(os[|os| - 1])]
    }

    /** What `Models` holds: one tree per argument, the argument's own. */
    static lemma ModelsOf(os: seq<RSTree?>)
      ensures |Models(os)| == |os|
      ensures forall i :: 0 <= i < |os| ==> Models(os)[i] == Sub(os[i])
    {
      if |os| > 0 {
        ModelsOf(os[..|os| - 1]);
      }
    }

    /** Every argument's tree is ordered, since every argument is a valid index. */
    static lemma ModelsOrdered(os: seq<RSTree?>)
      requires forall i :: 0 <= i < |os| && os[i] != null ==> os[i].Valid()
      ensures forall i :: 0 <= i < |Models(os)| ==> Ordered(Models(os)[i])
    {
      if |os| > 0 {
        ModelsOrdered(os[..|os| - 1]);
      }
    }

    /**
      * `merge(*others)` as written: `others` is the tuple of arguments,
      * never a list, so it is handed whole to `|`, which is not given a tree
      * and raises `TypeError` before anything changes.
      */
    method Merge(others: seq<RSTree?>) returns (r: Result<()>)
      requires Valid()
      modifies Repr
      ensures Valid() && fresh(Repr - old(Repr))
      ensures r == Err(TypeError) && Model == old(Model)
    {
      var merged := Or(null);
      return Err(merged.error);
    }

    /**
      * `merge(*others)` as intended: every argument merged into this index,
      * left to right; a non-tree argument raises `TypeError`, leaving the
      * arguments before it merged.
      */
    method MergeIntended(others: seq<RSTree?>) returns (r: Result<()>)
      requires Valid()
      requires forall i :: 0 <= i < |others| && others[i] != null ==> others[i].Valid() && others[i].Repr !! Repr
      modifies Repr
      ensures Valid() && fresh(Repr - old(Repr))
      ensures r.Err? <==> null in others
      ensures r.Err? ==> r.error == TypeError
      ensures r.Err? ==> exists j :: 0 <= j < |others| && others[j] == null && null !in others[..j] && Model == UnionAll(old(Model), old(Models(others))[..j])
      ensures r.Ok? ==> Model == UnionAll(old(Model), old(Models(others)))
    {
      ghost var models := Models(others);
      ModelsOf(others);
      for i := 0 to |others|
        invariant Valid() && fresh(Repr - old(Repr))
        invariant Pending(others, i, models)
        invariant null !in others[..i]
        invariant Model == UnionAll(old(Model), models[..i])
      {
        var res := OrBefore(others, i, models, old(Model));
        if res.Err? {
          assert others[i] == null && null !in others[..i] && Model == UnionAll(old(Model), models[..i]);
          return Err(TypeError);
        }
        assert others[..i + 1] == others[..i] + [others[i]];
      }
      assert others[..|others|] == others;
      assert models[..|others|] == models;
      return Ok(());
    }

    /**
      * The arguments from `i` on are still to be merged: each tree among them
      * is a valid index sharing no node with this one, and stands for its
      * entry of `models`.
      */
    ghost predicate Pending(others: seq<RSTree?>, i: nat, models: seq<Tree>)
      reads this, others, set j, o | i <= j < |others| && others[j] != null && o in others[j].Repr :: o
    {
      && i <= |others| == |models|
      && forall j :: i <= j < |others| ==>
           && (others[j] != null ==> others[j].Valid() && others[j].Repr !! Repr)
           && Sub(others[j]) == models[j]
    }

    /**
      * One step of the intended `merge`: `self |= others[i]`, which extends
      * the union of the arguments so far by one and leaves the arguments
      * still to come intact.
      */
    method OrBefore(others: seq<RSTree?>, i: nat, ghost models: seq<Tree>, ghost start: Tree) returns (r: Result<RSTree>)
      requires Valid() && i < |others|
      requires Pending(others, i, models)
      requires Model == UnionAll(start, models[..i])
      modifies Repr
      ensures Valid() && fresh(Repr - old(Repr))
      ensures r.Err? <==> others[i] == null
      ensures r.Err? ==> r.error == TypeError && Model == old(Model)
      ensures r.Ok? ==> Model == UnionAll(start, models[..i + 1])
      ensures Pending(others, i + 1, models)
    {
      UnionAllPrefix(start, models, i);
      r := Or(others[i]);
    }

    /**
      * `RSTree.from_tree_list(trees)`: a fresh index with every tree of the
      * list merged in, left to right; the trees are only read.  A non-tree
      * raises `TypeError`.
      */
    static method FromTreeList(trees: seq<RSTree?>) returns (r: Result<RSTree>)
      requires forall i :: 0 <= i < |trees| && trees[i] != null ==> trees[i].Valid()
      ensures r.Err? <==> null in trees
      ensures r.Err? ==> r.error == TypeError
      ensures r.Ok? ==> r.value.Valid() && fresh(r.value.Repr)
      ensures r.Ok? ==> r.value.Model == UnionAll(Leaf, Models(trees))
    {
      ghost var models := Models(trees);
      ModelsOf(trees);
      var tree := new RSTree();
      for i := 0 to |trees|
        invariant tree.Valid() && fresh(tree.Repr)
        invariant forall j :: 0 <= j < i ==> trees[j] != null
        invariant tree.Model == UnionAll(Leaf, models[..i])
      {
        var res := tree.Or(trees[i]);
        if res.Err? {
          return res;
        }
        assert models[..i + 1][..i] == models[..i];
      }
      assert models[..|trees|] == models;
      return Ok(tree);
    }

    /**
      * What `from_tree_list` builds: the dictionaries of the trees combined
      * left to right, a later tree winning on a shared name.
      */
    static lemma FromTreeListContents(trees: seq<RSTree?>)
      requires forall i :: 0 <= i < |trees| && trees[i] != null ==> trees[i].Valid()
      ensures Ordered(UnionAll(Leaf, Models(trees)))
      ensures Contents(UnionAll(Leaf, Models(trees))) == ContentsAll(Models(trees))
    {
      ModelsOrdered(trees);
      UnionAllContents(Leaf, Models(trees));
    }

    /** `size()`: the number of stored names. */
    function Size(): (n: nat)
      reads Repr
      requires Valid()
      ensures n == NameTree.Size(Model)
      ensures n == |Keys(Model)|
      decreases Repr
    {
      SizeIsKeyCount(Model);
      if item.None? then 0
      else
        var sizeRight := if right != null then right.Size() else 0;
        var sizeLeft := if left != null then left.Size() else 0;
        1 + sizeRight + sizeLeft
    }

    /** `depth()`: 0 for the empty index, else between 1 and `size()`. */
    function Depth(): (d: nat)
      reads Repr
      requires Valid()
      ensures d == NameTree.Depth(Model)
      ensures (d == 0) == (Model == Leaf) && d <= |Keys(Model)|
      decreases Repr
    {
      DepthBounds(Model);
      SizeIsKeyCount(Model);
      if item.None? then 0
      else
        var depthRight := if right != null then right.Depth() else 0;
        var depthLeft := if left != null then left.Depth() else 0;
        1 + if depthLeft < depthRight then depthRight else depthLeft
    }

    /** `has_been_seen(name)`: false for an absent name, else the stored item's mark. */
    function HasBeenSeen(k: string): (b: bool)
      reads Repr
      requires Valid()
      ensures b <==> k in Contents(Model) && Contents(Model)[k].seen
    {
      Contains(k) && Get(k).value.seen
    }

    /** `mark_as_seen(name)`: set `seen` on the stored item, or `KeyError` when the name is absent. */
    method MarkAsSeen(k: string) returns (r: Result<()>)
      requires Valid()
      modifies Repr
      ensures Valid() && Repr == old(Repr)
      ensures r == if k in Keys(old(Model)) then Ok(()) else Err(KeyError(k))
      ensures Model == if k in Keys(old(Model)) then MarkSeen(old(Model), k) else old(Model)
    {
      if !Contains(k) {
        return Err(KeyError(k));
      }
      MarkFound(k);
      return Ok(());
    }

    /** The walk of `tree[name]` down to the stored item, which then gets its mark. */
    method MarkFound(k: string)
      requires Valid() && k in Keys(Model)
      modifies Repr
      ensures Valid() && Repr == old(Repr)
      ensures Model == MarkSeen(old(Model), k)
      decreases Model, 1
    {
      MemberCorrect(Model, k);
      var key := Named(k);
      if key.Eq(item.value) {
        item := Some(item.value.(seen := true));
        Model := Node(item.value, Sub(left), Sub(right));
      } else if key.Lt(item.value) {
        MarkLeft(k);
      } else {
        MarkRight(k);
      }
    }

    /** The step of the walk into the left child, for a name smaller than this node's. */
    method MarkLeft(k: string)
      requires Valid() && item.Some? && left != null && k in Keys(left.Model)
      requires Less(k, item.value.fileName)
      modifies Repr
      ensures Valid() && Repr == old(Repr)
      ensures Model == MarkSeen(old(Model), k)
      decreases Model, 0
    {
      left.MarkFound(k);
      Model := Node(item.value, left.Model, Sub(right));
      LessIrreflexive(k);
      MarkSeenOrdered(old(Model), k);
    }

    /** The step of the walk into the right child, for a name larger than this node's. */
    method MarkRight(k: string)
      requires Valid() && item.Some? && right != null && k in Keys(right.Model)
      requires Less(item.value.fileName, k)
      modifies Repr
      ensures Valid() && Repr == old(Repr)
      ensures Model == MarkSeen(old(Model), k)
      decreases Model, 0
    {
      right.MarkFound(k);
      Model := Node(item.value, Sub(left), right.Model);
      LessIrreflexive(k);
      LessAsymmetric(item.value.fileName, k);
      MarkSeenOrdered(old(Model), k);
    }
  }
}

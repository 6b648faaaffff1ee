/**
  * `RSNode` of rootsense_utils.py: the name-keyed file index as linked
  * nodes.  Each node holds an optional item (`node`) and two optional
  * children; an empty index is a node with no item and no children.
  *
  * The ghost field `Model` is the tree the node stands for (module
  * NameTree) and `Repr` the nodes it is made of; `Valid()` ties the linked
  * nodes to `Model` and keeps `Model` ordered.  Every method is proved to
  * act on `Model` as the NameTree function of the same name, whose lemmas
  * state what that means for the index.
  */
module RootsenseUtils {
  import opened Names
  import opened Items
  import opened NameTree

  class RSNode {
    var node: Option<Item>
    var left: RSNode?
    var right: RSNode?
    ghost var Model: Tree
    ghost var Repr: set<object>

    ghost predicate Valid()
      reads this, Repr
      decreases Repr
    {
      && this in Repr
      && (left != null ==> left in Repr && left.Repr <= Repr && this !in left.Repr && left.Valid())
      && (right != null ==> right in Repr && right.Repr <= Repr && this !in right.Repr && right.Valid())
      && (left != null && right != null ==> left.Repr !! right.Repr)
      && (node.None? ==> left == null && right == null)
      && (node.None? ==> Model == Leaf)
      && (node.Some? ==> Model == Node(node.value, Sub(left), Sub(right)))
      && Ordered(Model)
    }

    /** The tree a possibly absent child stands for. */
    static ghost function Sub(n: RSNode?): Tree
      reads n
    {
      if n == null then Leaf else n.Model
    }

    /** `RSNode()`: the empty index. */
    constructor ()
      ensures Valid() && fresh(Repr)
      ensures Model == Leaf
    {
      node := None;
      left := null;
      right := null;
      Model := Leaf;
      Repr := {this};
    }

    /** `insert(item)`: an empty node takes the item; an equal name replaces it; smaller goes left, the rest right. */
    method Insert(x: Item)
      requires Valid()
      modifies Repr
      ensures Valid() && fresh(Repr - old(Repr))
      ensures Model == NameTree.Insert(old(Model), x)
      decreases Model, 1
    {
      if node.None? {
        node := Some(x);
        Model := Node(x, Leaf, Leaf);
      } else if x.Eq(node.value) {
        node := Some(x);
        Model := Node(x, Sub(left), Sub(right));
      } else if x.Lt(node.value) {
        InsertLeft(x);
      } else {
        InsertRight(x);
      }
    }

    /** The branch of `insert` for a smaller name: create the left child if absent, then insert there. */
    method InsertLeft(x: Item)
      requires Valid() && node.Some? && !x.Eq(node.value) && x.Lt(node.value)
      modifies Repr
      ensures Valid() && fresh(Repr - old(Repr))
      ensures Model == NameTree.Insert(old(Model), x)
      decreases Model, 0
    {
      if left == null {
        AddLeft();
      }
      left.Insert(x);
      Repr := Repr + left.Repr;
      Model := Node(node.value, left.Model, Sub(right));
      InsertOrdered(old(Model), x);
    }

    /** The branch of `insert` for a larger name: create the right child if absent, then insert there. */
    method InsertRight(x: Item)
      requires Valid() && node.Some? && !x.Eq(node.value) && !x.Lt(node.value)
      modifies Repr
      ensures Valid() && fresh(Repr - old(Repr))
      ensures Model == NameTree.Insert(old(Model), x)
      decreases Model, 0
    {
      if right == null {
        AddRight();
      }
      right.Insert(x);
      Repr := Repr + right.Repr;
      Model := Node(node.value, Sub(left), right.Model);
      InsertOrdered(old(Model), x);
    }

    /** `self._left = RSNode()`: an empty child stands for the same tree as no child. */
    method AddLeft()
      requires Valid() && node.Some? && left == null
      modifies this
      ensures Valid() && left != null && fresh(Repr - old(Repr))
      ensures Model == old(Model) && right == old(right) && node == old(node)
    {
      left := new RSNode();
      Repr := Repr + left.Repr;
    }

    /** `self._right = RSNode()`. */
    method AddRight()
      requires Valid() && node.Some? && right == null
      modifies this
      ensures Valid() && right != null && fresh(Repr - old(Repr))
      ensures Model == old(Model) && left == old(left) && node == old(node)
    {
      right := new RSNode();
      Repr := Repr + right.Repr;
    }

    /** `item in tree`: true iff an item with that name is stored (false on the empty index). */
    function Contains(k: string): (b: bool)
      reads Repr
      requires Valid()
      ensures b == Member(Model, k)
      ensures b <==> k in Keys(Model)
      decreases Repr
    {
      MemberCorrect(Model, k);
      var item := Named(k);
      if node.None? then false
      else if node.value.Eq(item) then true
      else if item.Lt(node.value) && left != null then left.Contains(k)
      else if item.Gt(node.value) && right != null then right.Contains(k)
      else false
    }

    /** `tree[name]`: the stored item with that name, or `KeyError` when there is none. */
    function Get(k: string): (r: Result<Item>)
      reads Repr
      requires Valid()
      ensures r == Lookup(Model, k)
      ensures r == if k in Contents(Model) then Ok(Contents(Model)[k]) else Err(KeyError(k))
      decreases Repr
    {
      LookupCorrect(Model, k);
      var item := Named(k);
      if node.None? || !Contains(k) then Err(KeyError(k))
      else if item.Eq(node.value) then Ok(node.value)
      else if item.Lt(node.value) then
        assert left != null by {
          MemberCorrect(Model, k);
        }
        left.Get(k)
      else
        assert right != null by {
          MemberCorrect(Model, k);
        }
        right.Get(k)
    }

    /**
      * `self | other`: merge `other` into this index in place and return this
      * index; `null` stands for an argument that is not an `RSNode`, which
      * raises `TypeError` before anything changes.
      */
    method Or(other: RSNode?) returns (r: Result<RSNode>)
      requires Valid()
      requires other != null ==> other.Valid() && Repr !! other.Repr
      modifies Repr
      ensures Valid() && fresh(Repr - old(Repr))
      ensures other == null ==> r == Err(TypeError) && Model == old(Model)
      ensures other != null ==> r == Ok(this) && Model == Union(old(Model), other.Model)
      decreases if other == null then {} else other.Repr
    {
      if other == null {
        return Err(TypeError);
      }
      if other.node.None? {
        return Ok(this);
      }
      Insert(other.node.value);
      if other.left != null {
        var _ := Or(other.left);
      }
      if other.right != null {
        var _ := Or(other.right);
      }
      return Ok(this);
    }

    /** The trees a run of arguments stands for (`null` for a non-tree contributes nothing). */
    static ghost function Models(os: seq<RSNode?>): seq<Tree>
      reads os
    {
      if |os| == 0 then [] else Models(os[..|os| - 1]) + [Sub(os[|os| - 1])]
    }

    /**
      * `RSNode.merge(*others)`: a fresh index with every argument merged in,
      * left to right.  The arguments are only read.  A non-tree argument
      * raises `TypeError`.
      */
    static method Merge(others: seq<RSNode?>) returns (r: Result<RSNode>)
      requires forall i :: 0 <= i < |others| && others[i] != null ==> others[i].Valid()
      ensures r.Err? <==> null in others
      ensures r.Err? ==> r.error == TypeError
      ensures r.Ok? ==> r.value.Valid() && fresh(r.value.Repr)
      ensures r.Ok? ==> r.value.Model == UnionAll(Leaf, Models(others))
    {
      ghost var models := Models(others);
      ModelsOf(others);
      var tree := new RSNode();
      for i := 0 to |others|
        invariant tree.Valid() && fresh(tree.Repr)
        invariant forall j :: 0 <= j < i ==> others[j] != null
        invariant tree.Model == UnionAll(Leaf, models[..i])
      {
        var res := tree.Or(others[i]);
        if res.Err? {
          return res;
        }
        assert models[..i + 1][..i] == models[..i];
        assert tree.Model == Union(UnionAll(Leaf, models[..i]), models[i]);
      }
      assert models[..|others|] == models;
      return Ok(tree);
    }

    /**
      * What `merge` builds: the dictionaries of the arguments combined left
      * to right, a later argument winning on a shared name.
      */
    static lemma MergeContents(others: seq<RSNode?>)
      requires forall i :: 0 <= i < |others| && others[i] != null ==> others[i].Valid()
      ensures Ordered(UnionAll(Leaf, Models(others)))
      ensures Contents(UnionAll(Leaf, Models(others))) == ContentsAll(Models(others))
    {
      ModelsOrdered(others);
      UnionAllContents(Leaf, Models(others));
    }

    /** What `Models` holds: one tree per argument, the argument's own. */
    static lemma ModelsOf(os: seq<RSNode?>)
      ensures |Models(os)| == |os|
      ensures forall i :: 0 <= i < |os| ==> Models(os)[i] == Sub(os[i])
    {
      if |os| > 0 {
        ModelsOf(os[..|os| - 1]);
      }
    }

    /** Every argument's tree is ordered, since every argument is a valid index. */
    static lemma ModelsOrdered(os: seq<RSNode?>)
      requires forall i :: 0 <= i < |os| && os[i] != null ==> os[i].Valid()
      ensures forall i :: 0 <= i < |Models(os)| ==> Ordered(Models(os)[i])
    {
      if |os| > 0 {
        ModelsOrdered(os[..|os| - 1]);
      }
    }

    /** `size()`: the number of stored names. */
    function Size(): (n: nat)
      reads Repr
      requires Valid()
      ensures n == NameTree.Size(Model)
      ensures n == |Keys(Model)|
      decreases Repr
    {
      SizeIsKeyCount(Model);
      if node.None? then 0
      else
        var sizeLeft := if left != null then left.Size() else 0;
        var sizeRight := if right != null then right.Size() else 0;
        1 + sizeLeft + sizeRight
    }

    /** `depth()`: 0 for the empty index, else between 1 and `size()`. */
    function Depth(): (d: nat)
      reads Repr
      requires Valid()
      ensures d == NameTree.Depth(Model)
      ensures (d == 0) == (Model == Leaf) && d <= |Keys(Model)|
      decreases Repr
    {
      DepthBounds(Model);
      SizeIsKeyCount(Model);
      if node.None? then 0
      else
        var depthLeft := if left != null then left.Depth() else 0;
        var depthRight := if right != null then right.Depth() else 0;
        1 + if depthLeft < depthRight then depthRight else depthLeft
    }

    /** `get_seen_status(name)`: the stored item's `seen`, or `KeyError` when the name is absent. */
    function GetSeenStatus(k: string): (r: Result<bool>)
      reads Repr
      requires Valid()
      ensures r == if k in Contents(Model) then Ok(Contents(Model)[k].seen) else Err(KeyError(k))
    {
      match Get(k)
      case Ok(item) => Ok(item.seen)
      case Err(e) => Err(e)
    }

    /** `mark_as_seen(name)`: set `seen` on the stored item, or `KeyError` when the name is absent. */
    method MarkAsSeen(k: string) returns (r: Result<()>)
      requires Valid()
      modifies Repr
      ensures Valid() && Repr == old(Repr)
      ensures r == if k in Keys(old(Model)) then Ok(()) else Err(KeyError(k))
      ensures Model == if k in Keys(old(Model)) then MarkSeen(old(Model), k) else old(Model)
    {
      if !Contains(k) {
        return Err(KeyError(k));
      }
      MarkFound(k);
      return Ok(());
    }

    /** The walk of `tree[name]` down to the stored item, which then gets its mark. */
    method MarkFound(k: string)
      requires Valid() && k in Keys(Model)
      modifies Repr
      ensures Valid() && Repr == old(Repr)
      ensures Model == MarkSeen(old(Model), k)
      decreases Model, 1
    {
      MemberCorrect(Model, k);
      var item := Named(k);
      if item.Eq(node.value) {
        node := Some(node.value.(seen := true));
        Model := Node(node.value, Sub(left), Sub(right));
      } else if item.Lt(node.value) {
        MarkLeft(k);
      } else {
        MarkRight(k);
      }
    }

    /** The step of the walk into the left child, for a name smaller than this node's. */
    method MarkLeft(k: string)
      requires Valid() && node.Some? && left != null && k in Keys(left.Model)
      requires Less(k, node.value.fileName)
      modifies Repr
      ensures Valid() && Repr == old(Repr)
      ensures Model == MarkSeen(old(Model), k)
      decreases Model, 0
    {
      left.MarkFound(k);
      Model := Node(node.value, left.Model, Sub(right));
      LessIrreflexive(k);
      MarkSeenOrdered(old(Model), k);
    }

    /** The step of the walk into the right child, for a name larger than this node's. */
    method MarkRight(k: string)
      requires Valid() && node.Some? && right != null && k in Keys(right.Model)
      requires Less(node.value.fileName, k)
      modifies Repr
      ensures Valid() && Repr == old(Repr)
      ensures Model == MarkSeen(old(Model), k)
      decreases Model, 0
    {
      right.MarkFound(k);
      Model := Node(node.value, Sub(left), right.Model);
      LessIrreflexive(k);
      LessAsymmetric(node.value.fileName, k);
      MarkSeenOrdered(old(Model), k);
    }
  }
}

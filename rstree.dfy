/**
  * `RSTree` of RSTree.py, the earliest draft of the index, as linked nodes.
  *
  * Each node holds an optional item (`_item`) and two optional children.
  * Nothing is ever replaced: equal names go left.  `Model` is the tree the
  * node stands for (module DupTree) and `Repr` the nodes it is made of.
  * A child, once linked, always holds an item.
  */
module EarlyRSTree {
  import opened Names
  import opened Items
  import opened NameTree
  import opened DupTree

  /**
    * What `__contains__` is handed: an item, or a list or a string, which it
    * unpacks into `_RSItem(*key)`; a string unpacks into its characters.
    */
  datatype Key = ItemKey(item: Item) | ListKey(args: seq<string>) | TextKey(text: string)

  /** The characters of `s`, each as a one-character string. */
  function Chars(s: string): (r: seq<string>)
    ensures |r| == |s|
    ensures forall i :: 0 <= i < |s| ==> r[i] == [s[i]]
  {
    if |s| == 0 then [] else Chars(s[..|s| - 1]) + [[s[|s| - 1]]]
  }

  /** The item `__contains__` searches for, as written: `_RSItem(*key)` for anything but an item. */
  function KeyItem(key: Key): Result<Item>
  {
    match key
    case ItemKey(x) => Ok(x)
    case ListKey(args) => ItemOfArgs(args)
    case TextKey(text) => ItemOfArgs(Chars(text))
  }

  /**
    * A string key is split into characters: a name of one to three
    * characters is searched for as its first character, and any longer name
    * raises `TypeError`.
    */
  lemma TextKeyAsWritten(text: string)
    ensures 1 <= |text| <= 3 ==> KeyItem(TextKey(text)).Ok? && KeyItem(TextKey(text)).value.fileName == [text[0]]
    ensures (|text| == 0 || |text| > 3) ==> KeyItem(TextKey(text)) == Err(TypeError)
  {
  }

  /** The file name of a header, the key the index is meant to be queried with, raises `TypeError` as written. */
  lemma HeaderNameKeyRaises()
    ensures KeyItem(TextKey("foo.h")) == Err(TypeError)
  {
    TextKeyAsWritten("foo.h");
  }

  /** The item searched for as intended: a string is a file name. */
  function KeyItemIntended(key: Key): (r: Result<Item>)
    ensures key.TextKey? ==> r == Ok(Named(key.text))
    ensures !key.TextKey? ==> r == KeyItem(key)
  {
    match key
    case TextKey(text) => Ok(Named(text))
    case _ => KeyItem(key)
  }

  class RSTree {
    var item: Option<Item>
    var left: RSTree?
    var right: RSTree?
    ghost var Model: Tree
    ghost var Repr: set<object>

    ghost predicate Valid()
      reads this, Repr
      decreases Repr
    {
      && this in Repr
      && (left != null ==> left in Repr && left.Repr <= Repr && this !in left.Repr && left.Valid())
      && (right != null ==> right in Repr && right.Repr <= Repr && this !in right.Repr && right.Valid())
      && (left != null && right != null ==> left.Repr !! right.Repr)
      && (item.None? ==> left == null && right == null && Model == Leaf)
      && (item.Some? ==> Model == Node(item.value, Sub(left), Sub(right)))
      && (left != null ==> left.item.Some?)
      && (right != null ==> right.item.Some?)
      && OrderedDup(Model)
    }

    /** The tree a possibly absent child stands for. */
    static ghost function Sub(n: RSTree?): Tree
      reads n
    {
      if n == null then Leaf else n.Model
    }

    /** `RSTree()`: the empty index. */
    constructor ()
      ensures Valid() && fresh(Repr)
      ensures Model == Leaf
    {
      item := None;
      left := null;
      right := null;
      Model := Leaf;
      Repr := {this};
    }

    /** `insert(item)`: an empty node takes the item; a name `<=` the node's goes left, any other right. */
    method Insert(x: Item)
      requires Valid()
      modifies Repr
      ensures Valid() && fresh(Repr - old(Repr))
      ensures Model == InsertDup(old(Model), x)
      ensures item.Some?
      decreases Model, 1
    {
      if item.None? {
        item := Some(x);
        Model := Node(x, Leaf, Leaf);
      } else if x.Le(item.value) {
        InsertLeft(x);
      } else {
        InsertRight(x);
      }
    }

    /** The branch of `insert` for a name `<=` the node's: a missing left child is created holding the item. */
    method InsertLeft(x: Item)
      requires Valid() && item.Some? && x.Le(item.value)
      modifies Repr
      ensures Valid() && fresh(Repr - old(Repr))
      ensures Model == InsertDup(old(Model), x)
      ensures item.Some?
      decreases Model, 0
    {
      if left == null {
        var child := new RSTree();
        child.Insert(x);
        left := child;
      } else {
        left.Insert(x);
      }
      Repr := Repr + left.Repr;
      Model := Node(item.value, left.Model, Sub(right));
      InsertDupOrdered(old(Model), x);
    }

    /** The branch of `insert` for a larger name: a missing right child is created holding the item. */
    method InsertRight(x: Item)
      requires Valid() && item.Some? && !x.Le(item.value)
      modifies Repr
      ensures Valid() && fresh(Repr - old(Repr))
      ensures Model == InsertDup(old(Model), x)
      ensures item.Some?
      decreases Model, 0
    {
      if right == null {
        var child := new RSTree();
        child.Insert(x);
        right := child;
      } else {
        right.Insert(x);
      }
      Repr := Repr + right.Repr;
      Model := Node(item.value, Sub(left), right.Model);
      InsertDupOrdered(old(Model), x);
    }

    /**
      * The search of `__contains__` once the key is an item: false on an
      * empty root, true on a node with the name, and `TypeError` when it
      * steps into a missing child.
      */
    function Search(k: string): (r: Result<bool>)
      reads Repr
      requires Valid()
      ensures r == ContainsAsWritten(Model, k)
      ensures r == Ok(true) <==> k in NameSet(Model)
      ensures r == Err(TypeError) <==> Model.Node? && k !in NameSet(Model)
      decreases Repr
    {
      ContainsAsWrittenOutcome(Model, k);
      if item.None? then Ok(false)
      else if item.value.fileName == k then Ok(true)
      else if LessEq(k, item.value.fileName) then
        (if left == null then Err(TypeError) else left.Search(k))
      else
        (if right == null then Err(TypeError) else right.Search(k))
    }

    /** `key in tree`: unpack the key, then search; any failure is a `TypeError`. */
    function Contains(key: Key): (r: Result<bool>)
      reads Repr
      requires Valid()
      ensures KeyItem(key).Err? ==> r == Err(TypeError)
      ensures KeyItem(key).Ok? ==> r == ContainsAsWritten(Model, KeyItem(key).value.fileName)
    {
      match KeyItem(key)
      case Err(_) => Err(TypeError)
      case Ok(x) => Search(x.fileName)
    }

    /** The search as intended: a missing child means the name is absent. */
    function Find(k: string): (b: bool)
      reads Repr
      requires Valid()
      ensures b == DupTree.Contains(Model, k)
      ensures b <==> k in NameSet(Model)
      decreases Repr
    {
      ContainsCorrect(Model, k);
      if item.None? then false
      else if item.value.fileName == k then true
      else if LessEq(k, item.value.fileName) then left != null && left.Find(k)
      else right != null && right.Find(k)
    }

    /** `key in tree` as intended: a string is a file name, and the answer is whether that name is stored. */
    function ContainsIntended(key: Key): (r: Result<bool>)
      reads Repr
      requires Valid()
      ensures key.TextKey? ==> r == Ok(key.text in NameSet(Model))
      ensures key.ItemKey? ==> r == Ok(key.item.fileName in NameSet(Model))
      ensures key.ListKey? ==> (r.Ok? <==> 1 <= |key.args| <= 3)
      ensures key.ListKey? && 1 <= |key.args| <= 3 ==> r == Ok(key.args[0] in NameSet(Model))
    {
      match KeyItemIntended(key)
      case Err(_) => Err(TypeError)
      case Ok(x) => Ok(Find(x.fileName))
    }
  }
}

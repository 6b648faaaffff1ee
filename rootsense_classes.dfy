/**
  * `RSTree` of rootsense_classes.py: the name-keyed file index as linked
  * nodes, in the draft whose `insert_path` walks a directory level by
  * level.
  *
  * As in module RootsenseUtils, `Model` is the tree the node stands for
  * (module NameTree) and `Repr` the nodes it is made of.  The directory a
  * walk starts from is a snapshot (`Dir`): its entries as `glob('*')` lists
  * them, each a file (with its name, its path and what the `file` command
  * says about it), a subdirectory, or anything else.
  */
module RootsenseClasses {
  import opened Names
  import opened Items
  import opened NameTree
  import opened FileFilter

  // ---------------------------------------------------------------- directory snapshots

  /** One entry of a directory listing; `isAscii` is the answer of `is_ascii(file)`. */
  datatype Entry = File(name: string, path: string, isAscii: bool) | SubDir(dir: Dir) | Other
  datatype Dir = Dir(entries: seq<Entry>)

  /** The files of a listing, in listing order (`files`). */
  function Files(es: seq<Entry>): seq<Entry>
  {
    if |es| == 0 then []
    else
      var init := Files(es[..|es| - 1]);
      if es[|es| - 1].File? then init + [es[|es| - 1]] else init
  }

  /** The subdirectories of a listing, in listing order (`subdirs`). */
  function SubDirs(es: seq<Entry>): seq<Dir>
  {
    if |es| == 0 then []
    else
      var init := SubDirs(es[..|es| - 1]);
      if es[|es| - 1].SubDir? then init + [es[|es| - 1].dir] else init
  }

  /** Each of the `files` is a file of the listing. */
  lemma {:induction false} FilesSound(es: seq<Entry>, j: int)
    requires 0 <= j < |Files(es)|
    ensures Files(es)[j].File? && Files(es)[j] in es
  {
    var init := es[..|es| - 1];
    if j < |Files(init)| {
      FilesSound(init, j);
    }
  }

  /** Each of the `subdirs` is a subdirectory of the listing. */
  lemma {:induction false} SubDirsSound(es: seq<Entry>, j: int)
    requires 0 <= j < |SubDirs(es)|
    ensures SubDir(SubDirs(es)[j]) in es
  {
    var init := es[..|es| - 1];
    if j < |SubDirs(init)| {
      SubDirsSound(init, j);
    }
  }

  /** Every file of a listing is among its `files`. */
  lemma {:induction false} FilesComplete(es: seq<Entry>, f: Entry)
    requires f in es && f.File?
    ensures f in Files(es)
  {
    var init := es[..|es| - 1];
    if f != es[|es| - 1] {
      assert f in init;
      FilesComplete(init, f);
    }
  }

  /** Every subdirectory of a listing is among its `subdirs`. */
  lemma {:induction false} SubDirsComplete(es: seq<Entry>, d: Dir)
    requires SubDir(d) in es
    ensures d in SubDirs(es)
  {
    var init := es[..|es| - 1];
    if SubDir(d) != es[|es| - 1] {
      assert SubDir(d) in init;
      SubDirsComplete(init, d);
    }
  }

  /** The filter of `insert_path`, applied to a file of the listing. */
  predicate Admits(f: Entry, ext: Ext, ascii: bool)
  {
    f.File? && AdmitsClasses(f.name, ext, ascii, f.isAscii)
  }

  /** `insert(file)` on a path: `_RSItem(file.name, str(file))`. */
  function ItemOf(f: Entry): Item
    requires f.File?
  {
    Item(f.name, f.path, false)
  }

  /** The items the file loop of `insert_path` inserts, in order. */
  function Admitted(fs: seq<Entry>, ext: Ext, ascii: bool): seq<Item>
  {
    if |fs| == 0 then []
    else
      var init, f := fs[..|fs| - 1], fs[|fs| - 1];
      if Admits(f, ext, ascii) then Admitted(init, ext, ascii) + [ItemOf(f)] else Admitted(init, ext, ascii)
  }

  /** One more file considered: its item follows the others if the filter admits it. */
  lemma AdmittedStep(fs: seq<Entry>, i: nat, ext: Ext, ascii: bool)
    requires i < |fs|
    ensures Admits(fs[i], ext, ascii) ==> Admitted(fs[..i + 1], ext, ascii) == Admitted(fs[..i], ext, ascii) + [ItemOf(fs[i])]
    ensures !Admits(fs[i], ext, ascii) ==> Admitted(fs[..i + 1], ext, ascii) == Admitted(fs[..i], ext, ascii)
  {
    assert fs[..i + 1][..i] == fs[..i];
  }

  /** The file loop inserts exactly the admitted files, each as its item. */
  lemma {:induction false} AdmittedMember(fs: seq<Entry>, ext: Ext, ascii: bool, x: Item)
    ensures x in Admitted(fs, ext, ascii) <==> exists f :: f in fs && Admits(f, ext, ascii) && ItemOf(f) == x
  {
    if |fs| > 0 {
      var init, f := fs[..|fs| - 1], fs[|fs| - 1];
      AdmittedMember(init, ext, ascii, x);
      assert forall g :: g in fs <==> g in init || g == f;
    }
  }

  /**
    * Every item `insert_path(d)` inserts, in order: the admitted files of
    * `d` first, then, subdirectory by subdirectory, what the walk of each
    * inserts.
    */
  function PathItems(d: Dir, ext: Ext, ascii: bool): seq<Item>
    decreases d, 1
  {
    Admitted(Files(d.entries), ext, ascii) + Concat(Walks(d, |SubDirs(d.entries)|, ext, ascii))
  }

  /** What the walk of each of the first `n` subdirectories of `d` inserts. */
  function Walks(d: Dir, n: nat, ext: Ext, ascii: bool): seq<seq<Item>>
    requires n <= |SubDirs(d.entries)|
    decreases d, 0, n
  {
    if n == 0 then []
    else
      var sub := SubDirs(d.entries)[n - 1];
      SubDirsSound(d.entries, n - 1);
      Walks(d, n - 1, ext, ascii) + [PathItems(sub, ext, ascii)]
  }

  /** Runs of items one after the other. */
  function Concat(parts: seq<seq<Item>>): seq<Item>
  {
    if |parts| == 0 then [] else Concat(parts[..|parts| - 1]) + parts[|parts| - 1]
  }

  /** One more run put after the others. */
  lemma ConcatStep(parts: seq<seq<Item>>, i: nat)
    requires i < |parts|
    ensures Concat(parts[..i + 1]) == Concat(parts[..i]) + parts[i]
  {
    assert parts[..i + 1][..i] == parts[..i];
  }

  /** An item of the runs put together is an item of one of them. */
  lemma {:induction false} ConcatMember(parts: seq<seq<Item>>, x: Item)
    ensures x in Concat(parts) <==> exists j :: 0 <= j < |parts| && x in parts[j]
  {
    if |parts| > 0 {
      var init := parts[..|parts| - 1];
      ConcatMember(init, x);
      if exists j :: 0 <= j < |parts| && x in parts[j] {
        var j :| 0 <= j < |parts| && x in parts[j];
        if j < |init| {
          assert init[j] == parts[j];
        }
      }
      if x in Concat(init) {
        var j :| 0 <= j < |init| && x in init[j];
        assert init[j] == parts[j];
      }
    }
  }

  /** The walks are those of the subdirectories, in order. */
  lemma {:induction false} WalksOf(d: Dir, n: nat, ext: Ext, ascii: bool)
    requires n <= |SubDirs(d.entries)|
    ensures |Walks(d, n, ext, ascii)| == n
    ensures forall j :: 0 <= j < n ==> Walks(d, n, ext, ascii)[j] == PathItems(SubDirs(d.entries)[j], ext, ascii)
  {
    if n > 0 {
      WalksOf(d, n - 1, ext, ascii);
    }
  }

  /** `f` is listed in `d` or, at any depth, in one of its subdirectories. */
  ghost predicate Holds(d: Dir, f: Entry)
    decreases d
  {
    f in d.entries || exists e :: e in d.entries && e.SubDir? && Holds(e.dir, f)
  }

  /**
    * `insert_path(d)` inserts exactly the files found anywhere under `d`
    * that pass the filter, each as the item with its name and path.
    */
  lemma {:induction false} PathItemsExact(d: Dir, ext: Ext, ascii: bool, x: Item)
    ensures x in PathItems(d, ext, ascii) <==> exists f :: Holds(d, f) && Admits(f, ext, ascii) && ItemOf(f) == x
    decreases d
  {
    var ds := SubDirs(d.entries);
    var walks := Walks(d, |ds|, ext, ascii);
    WalksOf(d, |ds|, ext, ascii);
    ConcatMember(walks, x);
    AdmittedMember(Files(d.entries), ext, ascii, x);
    if x in PathItems(d, ext, ascii) {
      if x !in Admitted(Files(d.entries), ext, ascii) {
        var j :| 0 <= j < |walks| && x in walks[j];
        SubDirsSound(d.entries, j);
        PathItemsExact(ds[j], ext, ascii, x);
        var f :| Holds(ds[j], f) && Admits(f, ext, ascii) && ItemOf(f) == x;
        assert Holds(d, f);
      } else {
        var f :| f in Files(d.entries) && Admits(f, ext, ascii) && ItemOf(f) == x;
        var i :| 0 <= i < |Files(d.entries)| && Files(d.entries)[i] == f;
        FilesSound(d.entries, i);
        assert Holds(d, f);
      }
    }
    if exists f :: Holds(d, f) && Admits(f, ext, ascii) && ItemOf(f) == x {
      var f :| Holds(d, f) && Admits(f, ext, ascii) && ItemOf(f) == x;
      if f in d.entries {
        FilesComplete(d.entries, f);
      } else {
        var e :| e in d.entries && e.SubDir? && Holds(e.dir, f);
        PathItemsExact(e.dir, ext, ascii, x);
        SubDirsComplete(d.entries, e.dir);
        var j :| 0 <= j < |ds| && ds[j] == e.dir;
        assert x in walks[j];
      }
    }
  }

  /**
    * After `insert_path(d)` on an ordered tree, the stored names are the old
    * ones and the names of the admitted files under `d`; an admitted file
    * replaces a stored item of the same name, and a later file an earlier
    * one.
    */
  lemma InsertPathContents(t: Tree, d: Dir, ext: Ext, ascii: bool, k: string)
    requires Ordered(t)
    ensures Ordered(InsertAll(t, PathItems(d, ext, ascii)))
    ensures Contents(InsertAll(t, PathItems(d, ext, ascii))) == Contents(t) + LastWins(PathItems(d, ext, ascii))
    ensures k in Keys(InsertAll(t, PathItems(d, ext, ascii))) <==>
      k in Keys(t) || exists f :: Holds(d, f) && Admits(f, ext, ascii) && f.name == k
  {
    var xs := PathItems(d, ext, ascii);
    InsertAllContents(t, xs);
    if k in NamesOf(xs) {
      var i :| 0 <= i < |xs| && xs[i].fileName == k;
      PathItemsExact(d, ext, ascii, xs[i]);
    }
    if exists f :: Holds(d, f) && Admits(f, ext, ascii) && f.name == k {
      var f :| Holds(d, f) && Admits(f, ext, ascii) && f.name == k;
      PathItemsExact(d, ext, ascii, ItemOf(f));
      var i :| 0 <= i < |xs| && xs[i] == ItemOf(f);
    }
  }

  // ---------------------------------------------------------------- the index

  class RSTree {
    var item: Option<Item>
    var left: RSTree?
    var right: RSTree?
    ghost var Model: Tree
    ghost var Repr: set<object>

    ghost predicate Valid()
      reads this, Repr
      decreases Repr
    {
      && this in Repr
      && (left != null ==> left in Repr && left.Repr <= Repr && this !in left.Repr && left.Valid())
      && (right != null ==> right in Repr && right.Repr <= Repr && this !in right.Repr && right.Valid())
      && (left != null && right != null ==> left.Repr !! right.Repr)
      && (item.None? ==> left == null && right == null)
      && (item.None? ==> Model == Leaf)
      && (item.Some? ==> Model == Node(item.value, Sub(left), Sub(right)))
      && Ordered(Model)
    }

    /** The tree a possibly absent child stands for. */
    static ghost function Sub(n: RSTree?): Tree
      reads n
    {
      if n == null then Leaf else n.Model
    }

    /** `RSTree()`: the empty index. */
    constructor ()
      ensures Valid() && fresh(Repr)
      ensures Model == Leaf
    {
      item := None;
      left := null;
      right := null;
      Model := Leaf;
      Repr := {this};
    }

    /** `insert(item)`: an empty node takes the item; an equal name replaces it; smaller goes left, the rest right. */
    method Insert(x: Item)
      requires Valid()
      modifies Repr
      ensures Valid() && fresh(Repr - old(Repr))
      ensures Model == NameTree.Insert(old(Model), x)
      decreases Model, 1
    {
      if item.None? {
        item := Some(x);
        Model := Node(x, Leaf, Leaf);
      } else if x.Eq(item.value) {
        item := Some(x);
        Model := Node(x, Sub(left), Sub(right));
      } else if x.Lt(item.value) {
        InsertLeft(x);
      } else {
        InsertRight(x);
      }
    }

    /** The branch of `insert` for a smaller name: create the left child if absent, then insert there. */
    method InsertLeft(x: Item)
      requires Valid() && item.Some? && !x.Eq(item.value) && x.Lt(item.value)
      modifies Repr
      ensures Valid() && fresh(Repr - old(Repr))
      ensures Model == NameTree.Insert(old(Model), x)
      decreases Model, 0
    {
      if left == null {
        AddLeft();
      }
      left.Insert(x);
      Repr := Repr + left.Repr;
      Model := Node(item.value, left.Model, Sub(right));
      InsertOrdered(old(Model), x);
    }

    /** The branch of `insert` for a larger name: create the right child if absent, then insert there. */
    method InsertRight(x: Item)
      requires Valid() && item.Some? && !x.Eq(item.value) && !x.Lt(item.value)
      modifies Repr
      ensures Valid() && fresh(Repr - old(Repr))
      ensures Model == NameTree.Insert(old(Model), x)
      decreases Model, 0
    {
      if right == null {
        AddRight();
      }
      right.Insert(x);
      Repr := Repr + right.Repr;
      Model := Node(item.value, Sub(left), right.Model);
      InsertOrdered(old(Model), x);
    }

    /** `self._left = RSTree()`: an empty child stands for the same tree as no child. */
    method AddLeft()
      requires Valid() && item.Some? && left == null
      modifies this
      ensures Valid() && left != null && fresh(Repr - old(Repr))
      ensures Model == old(Model) && right == old(right) && item == old(item)
    {
      left := new RSTree();
      Repr := Repr + left.Repr;
    }

    /** `self._right = RSTree()`. */
    method AddRight()
      requires Valid() && item.Some? && right == null
      modifies this
      ensures Valid() && right != null && fresh(Repr - old(Repr))
      ensures Model == old(Model) && left == old(left) && item == old(item)
    {
      right := new RSTree();
      Repr := Repr + right.Repr;
    }

    /**
      * `name in tree`: false on an empty node, true on a node with the name;
      * otherwise a name `<=` the node's is looked for on the left and any other
      * on the right, an absent child meaning false.
      */
    function Contains(k: string): (b: bool)
      reads Repr
      requires Valid()
      ensures b == Member(Model, k)
      ensures b <==> k in Keys(Model)
      decreases Repr
    {
      MemberCorrect(Model, k);
      var key := Named(k);
      if item.None? then false
      else if item.value.Eq(key) then true
      else if key.Le(item.value) then left != null && left.Contains(k)
      else right != null && right.Contains(k)
    }

    /** `tree[key]` on `str(key)`: `KeyError` unless that name is stored, else the stored item with that name. */
    function Get(k: string): (r: Result<Item>)
      reads Repr
      requires Valid()
      ensures r == Lookup(Model, k)
      ensures r == if k in Contents(Model) then Ok(Contents(Model)[k]) else Err(KeyError(k))
      decreases Repr
    {
      LookupCorrect(Model, k);
      var key := Named(k);
      if item.None? || !Contains(k) then Err(KeyError(k))
      else if key.Eq(item.value) then Ok(item.value)
      else if key.Le(item.value) then
        assert left != null by {
          MemberCorrect(Model, k);
        }
        left.Get(k)
      else
        assert right != null by {
          MemberCorrect(Model, k);
        }
        right.Get(k)
    }

    /**
      * `insert_path(d, ext, ascii)`: sort the listing of `d` into files and
      * subdirectories, insert every file that passes the filter, then walk
      * each subdirectory in turn.
      */
    method InsertPath(d: Dir, ext: Ext, ascii: bool)
      requires Valid()
      modifies Repr
      ensures Valid() && fresh(Repr - old(Repr))
      ensures Model == InsertAll(old(Model), PathItems(d, ext, ascii))
      decreases d, 1
    {
      var files, subdirs := SortListing(d.entries);
      forall j | 0 <= j < |files|
        ensures files[j].File?
      {
        FilesSound(d.entries, j);
      }
      InsertFiles(files, ext, ascii);
      InsertSubdirs(d, subdirs, ext, ascii);
      InsertAllAppend(old(Model), Admitted(files, ext, ascii), Concat(Walks(d, |subdirs|, ext, ascii)));
    }

    /** The third loop of `insert_path`: walk each subdirectory of `d` in turn. */
    method InsertSubdirs(d: Dir, subdirs: seq<Dir>, ext: Ext, ascii: bool)
      requires Valid() && subdirs == SubDirs(d.entries)
      modifies Repr
      ensures Valid() && fresh(Repr - old(Repr))
      ensures Model == InsertAll(old(Model), Concat(Walks(d, |subdirs|, ext, ascii)))
      decreases d, 0
    {
      ghost var walks := Walks(d, |subdirs|, ext, ascii);
      WalksOf(d, |subdirs|, ext, ascii);
      for i := 0 to |subdirs|
        invariant Valid() && fresh(Repr - old(Repr))
        invariant Model == InsertAll(old(Model), Concat(walks[..i]))
      {
        SubDirsSound(d.entries, i);
        ConcatStep(walks, i);
        InsertAllAppend(old(Model), Concat(walks[..i]), walks[i]);
        InsertPath(subdirs[i], ext, ascii);
      }
      assert walks[..|subdirs|] == walks;
    }

    /** The first loop of `insert_path`: the files and the subdirectories of a listing, each in listing order. */
    static method SortListing(es: seq<Entry>) returns (files: seq<Entry>, subdirs: seq<Dir>)
      ensures files == Files(es) && subdirs == SubDirs(es)
    {
      files, subdirs := [], [];
      for i := 0 to |es|
        invariant files == Files(es[..i])
        invariant subdirs == SubDirs(es[..i])
      {
        var elem := es[i];
        assert es[..i + 1][..i] == es[..i];
        if elem.File? {
          files := files + [elem];
        } else if elem.SubDir? {
          subdirs := subdirs + [elem.dir];
        }
      }
      assert es[..|es|] == es;
    }

    /**
      * The second loop of `insert_path`: insert each file whose suffix `ext`
      * admits, skipping an extensionless file that is not ASCII text when
      * `ascii` is set.
      */
    method InsertFiles(files: seq<Entry>, ext: Ext, ascii: bool)
      requires Valid()
      requires forall j :: 0 <= j < |files| ==> files[j].File?
      modifies Repr
      ensures Valid() && fresh(Repr - old(Repr))
      ensures Model == InsertAll(old(Model), Admitted(files, ext, ascii))
    {
      for i := 0 to |files|
        invariant Valid() && fresh(Repr - old(Repr))
        invariant Model == InsertAll(old(Model), Admitted(files[..i], ext, ascii))
      {
        var file := files[i];
        AdmittedStep(files, i, ext, ascii);
        ghost var before := Admitted(files[..i], ext, ascii);
        var suffix := Suffix(file.name);
        if ext == ExtText("*") || In(suffix, ext) {
          if ascii && suffix == "" && !file.isAscii {
            continue;
          }
          InsertAllSnoc(old(Model), before, ItemOf(file));
          Insert(ItemOf(file));
        }
      }
      assert files[..|files|] == files;
    }

    /** `size()`: the number of stored names. */
    function Size(): (n: nat)
      reads Repr
      requires Valid()
      ensures n == NameTree.Size(Model)
      ensures n == |Keys(Model)|
      decreases Repr
    {
      SizeIsKeyCount(Model);
      if item.None? then 0
      else
        var sizeRight := if right != null then right.Size() else 0;
        var sizeLeft := if left != null then left.Size() else 0;
        1 + sizeRight + sizeLeft
    }

    /** `depth()`: 0 for the empty index, else between 1 and `size()`. */
    function Depth(): (d: nat)
      reads Repr
      requires Valid()
      ensures d == NameTree.Depth(Model)
      ensures (d == 0) == (Model == Leaf) && d <= |Keys(Model)|
      decreases Repr
    {
      DepthBounds(Model);
      SizeIsKeyCount(Model);
      if item.None? then 0
      else
        var depthRight := if right != null then right.Depth() else 0;
        var depthLeft := if left != null then left.Depth() else 0;
        1 + if depthLeft < depthRight then depthRight else depthLeft
    }
  }
}

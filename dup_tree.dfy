/**
  * The index of the earliest draft (`RSTree` in RSTree.py), as a value.
  *
  * That draft keeps every inserted item: an item whose name is `<=` the
  * node's goes left, any other goes right, so equal names pile up on the
  * left.  Its `__contains__` descends into a child without checking that the
  * child exists; `in None` raises `TypeError`, so a search for an absent name
  * fails instead of answering `False`.
  */
module DupTree {
  import opened Names
  import opened Items
  import opened NameTree

  /** The earliest `insert`: `<=` goes left, the rest right, nothing is replaced. */
  function InsertDup(t: Tree, x: Item): (r: Tree)
    ensures r.Node?
  {
    match t
    case Leaf => Node(x, Leaf, Leaf)
    case Node(y, l, rt) =>
      if x.Le(y) then Node(y, InsertDup(l, x), rt)
      else Node(y, l, InsertDup(rt, x))
  }

  /** Every stored item, with repetitions. */
  function Elems(t: Tree): multiset<Item>
  {
    match t
    case Leaf => multiset{}
    case Node(x, l, r) => Elems(l) + multiset{x} + Elems(r)
  }

  /** Every stored name. */
  function NameSet(t: Tree): set<string>
  {
    match t
    case Leaf => {}
    case Node(x, l, r) => NameSet(l) + {x.fileName} + NameSet(r)
  }

  /** The ordering the earliest draft keeps: names on the left are `<=` the node's, names on the right `>`. */
  ghost predicate OrderedDup(t: Tree)
  {
    match t
    case Leaf => true
    case Node(x, l, r) =>
      && OrderedDup(l)
      && OrderedDup(r)
      && (forall k :: k in NameSet(l) ==> LessEq(k, x.fileName))
      && (forall k :: k in NameSet(r) ==> Less(x.fileName, k))
  }

  /** An insert adds exactly the new item: nothing stored before is removed or altered. */
  lemma {:induction false} InsertDupElems(t: Tree, x: Item)
    ensures Elems(InsertDup(t, x)) == Elems(t) + multiset{x}
  {
    match t
    case Leaf =>
    case Node(y, l, r) =>
      if x.Le(y) {
        InsertDupElems(l, x);
        calc {
          Elems(InsertDup(t, x));
          Elems(InsertDup(l, x)) + multiset{y} + Elems(r);
          Elems(l) + multiset{x} + multiset{y} + Elems(r);
          Elems(t) + multiset{x};
        }
      } else {
        InsertDupElems(r, x);
      }
  }

  /** An insert adds the new name to the stored names. */
  lemma {:induction false} InsertDupNames(t: Tree, x: Item)
    ensures NameSet(InsertDup(t, x)) == NameSet(t) + {x.fileName}
  {
    match t
    case Leaf =>
    case Node(y, l, r) =>
      if x.Le(y) {
        InsertDupNames(l, x);
      } else {
        InsertDupNames(r, x);
      }
  }

  /** Every insert grows the node count by exactly one, duplicates included. */
  lemma {:induction false} InsertDupSize(t: Tree, x: Item)
    ensures Size(InsertDup(t, x)) == Size(t) + 1
  {
    match t
    case Leaf =>
    case Node(y, l, r) =>
      if x.Le(y) {
        InsertDupSize(l, x);
      } else {
        InsertDupSize(r, x);
      }
  }

  /** The node count is the number of stored items, repetitions included. */
  lemma {:induction false} SizeIsElemCount(t: Tree)
    ensures Size(t) == |Elems(t)|
  {
    match t
    case Leaf =>
    case Node(_, l, r) =>
      SizeIsElemCount(l);
      SizeIsElemCount(r);
  }

  /** Inserting keeps the ordering. */
  lemma {:induction false} InsertDupOrdered(t: Tree, x: Item)
    requires OrderedDup(t)
    ensures OrderedDup(InsertDup(t, x))
  {
    match t
    case Leaf =>
    case Node(y, l, r) =>
      if x.Le(y) {
        InsertDupOrdered(l, x);
        InsertDupNames(l, x);
      } else {
        InsertDupOrdered(r, x);
        InsertDupNames(r, x);
        Trichotomy(x.fileName, y.fileName);
      }
  }

  // ---------------------------------------------------------------- the in-order listing

  /** `printout`: left subtree, node, right subtree. */
  function InOrder(t: Tree): (s: seq<Item>)
    ensures |s| == Size(t)
  {
    match t
    case Leaf => []
    case Node(x, l, r) => InOrder(l) + [x] + InOrder(r)
  }

  predicate NonDecreasing(s: seq<Item>)
  {
    forall i, j :: 0 <= i < j < |s| ==> LessEq(s[i].fileName, s[j].fileName)
  }

  /** The listing holds exactly the stored items. */
  lemma {:induction false} InOrderElems(t: Tree)
    ensures multiset(InOrder(t)) == Elems(t)
  {
    match t
    case Leaf =>
    case Node(x, l, r) =>
      InOrderElems(l);
      InOrderElems(r);
  }

  /** Every name in the listing is a stored name. */
  lemma {:induction false} InOrderNames(t: Tree)
    ensures forall i :: 0 <= i < |InOrder(t)| ==> InOrder(t)[i].fileName in NameSet(t)
  {
    match t
    case Leaf =>
    case Node(x, l, r) =>
      InOrderNames(l);
      InOrderNames(r);
      var sl, sr := InOrder(l), InOrder(r);
      forall i | 0 <= i < |InOrder(t)|
        ensures InOrder(t)[i].fileName in NameSet(t)
      {
        if i > |sl| {
          assert InOrder(t)[i] == sr[i - |sl| - 1];
        }
      }
  }

  lemma LessEqTransitive(a: string, b: string, c: string)
    requires LessEq(a, b) && LessEq(b, c)
    ensures LessEq(a, c)
  {
    if a != b && b != c {
      LessTransitive(a, b, c);
    }
  }

  /** In an ordered tree the listing is non-decreasing by name. */
  lemma {:induction false} InOrderSorted(t: Tree)
    requires OrderedDup(t)
    ensures NonDecreasing(InOrder(t))
  {
    match t
    case Leaf =>
    case Node(x, l, r) =>
      InOrderSorted(l);
      InOrderSorted(r);
      InOrderNames(l);
      InOrderNames(r);
      var sl, sr := InOrder(l), InOrder(r);
      var s := sl + [x] + sr;
      forall i, j | 0 <= i < j < |s|
        ensures LessEq(s[i].fileName, s[j].fileName)
      {
        if i < |sl| && j > |sl| {
          assert s[i] == sl[i] && s[j] == sr[j - |sl| - 1];
          LessEqTransitive(s[i].fileName, x.fileName, s[j].fileName);
        } else if i == |sl| {
          assert s[j] == sr[j - |sl| - 1];
        } else if i > |sl| {
          assert s[i] == sr[i - |sl| - 1] && s[j] == sr[j - |sl| - 1];
        }
      }
  }

  // ---------------------------------------------------------------- membership

  /**
    * `__contains__` as written: false on an empty root, true when the name is
    * met on the search path, and `TypeError` when the search steps into a
    * missing child.
    */
  function ContainsAsWritten(t: Tree, k: string): Result<bool>
  {
    match t
    case Leaf => Ok(false)
    case Node(x, l, r) =>
      if x.fileName == k then Ok(true)
      else if LessEq(k, x.fileName) then (if l.Leaf? then Err(TypeError) else ContainsAsWritten(l, k))
      else (if r.Leaf? then Err(TypeError) else ContainsAsWritten(r, k))
  }

  /**
    * In an ordered tree the search succeeds exactly for a stored name; for any
    * other name it fails with `TypeError` unless the tree is empty.
    */
  lemma {:induction false} ContainsAsWrittenOutcome(t: Tree, k: string)
    requires OrderedDup(t)
    ensures ContainsAsWritten(t, k) == Ok(true) <==> k in NameSet(t)
    ensures ContainsAsWritten(t, k) == Err(TypeError) <==> t.Node? && k !in NameSet(t)
    ensures ContainsAsWritten(t, k) == Ok(false) <==> t.Leaf?
  {
    match t
    case Leaf =>
    case Node(x, l, r) =>
      if x.fileName != k {
        if LessEq(k, x.fileName) {
          assert k !in NameSet(r) by {
            if k in NameSet(r) {
              LessAsymmetric(x.fileName, k);
            }
          }
          if l.Node? {
            ContainsAsWrittenOutcome(l, k);
          }
        } else {
          Trichotomy(k, x.fileName);
          assert k !in NameSet(l);
          if r.Node? {
            ContainsAsWrittenOutcome(r, k);
          }
        }
      }
  }

  /** A search for an absent name in a non-empty tree raises, whatever the tree: one concrete case. */
  lemma AbsentNameRaises()
    ensures ContainsAsWritten(Node(Named("b.h"), Leaf, Leaf), "a.h") == Err(TypeError)
  {
    assert LessEq("a.h", "b.h");
  }

  /** `__contains__` as intended: a missing child means the name is absent. */
  function Contains(t: Tree, k: string): bool
  {
    match t
    case Leaf => false
    case Node(x, l, r) =>
      if x.fileName == k then true
      else if LessEq(k, x.fileName) then Contains(l, k)
      else Contains(r, k)
  }

  /** In an ordered tree the intended search answers true exactly for a stored name, and agrees with the written one wherever that one answers. */
  lemma {:induction false} ContainsCorrect(t: Tree, k: string)
    requires OrderedDup(t)
    ensures Contains(t, k) <==> k in NameSet(t)
    ensures ContainsAsWritten(t, k).Ok? ==> ContainsAsWritten(t, k) == Ok(Contains(t, k))
  {
    ContainsAsWrittenOutcome(t, k);
    match t
    case Leaf =>
    case Node(x, l, r) =>
      if x.fileName != k {
        if LessEq(k, x.fileName) {
          assert k !in NameSet(r) by {
            if k in NameSet(r) {
              LessAsymmetric(x.fileName, k);
            }
          }
          ContainsCorrect(l, k);
        } else {
          Trichotomy(k, x.fileName);
          ContainsCorrect(r, k);
        }
      }
  }
}

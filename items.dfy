/**
  * The record every index stores (`_RSItem`), the exceptions the indexes
  * raise, and the result type that carries them.
  */
module Items {
  import opened Names

  /**
    * One indexed file: its base name, its path and the `seen` mark.
    * The six comparison operators of `_RSItem` look at `fileName` alone,
    * so two items with the same name and different paths are "equal".
    */
  datatype Item = Item(fileName: string, filePath: string, seen: bool) {
    predicate Eq(other: Item) { fileName == other.fileName }
    predicate Ne(other: Item) { fileName != other.fileName }
    predicate Lt(other: Item) { Less(fileName, other.fileName) }
    predicate Le(other: Item) { LessEq(fileName, other.fileName) }
    predicate Gt(other: Item) { Less(other.fileName, fileName) }
    predicate Ge(other: Item) { LessEq(other.fileName, fileName) }
  }

  /** `_RSItem(name)`: the dataclass defaults are an empty path and `seen == False`. */
  function Named(name: string): Item
  {
    Item(name, "", false)
  }

  /**
    * `_RSItem(*args)` for a list of strings: one to three positional
    * arguments fill `file_name`, `file_path` and `seen` in that order, and any
    * other number is a `TypeError`.  A third argument is a string stored as
    * `seen`; the model keeps its truth value (non-empty).
    */
  function ItemOfArgs(args: seq<string>): (r: Result<Item>)
    ensures r.Ok? <==> 1 <= |args| <= 3
    ensures r.Ok? ==> r.value.fileName == args[0]
  {
    if |args| == 1 then Ok(Named(args[0]))
    else if |args| == 2 then Ok(Item(args[0], args[1], false))
    else if |args| == 3 then Ok(Item(args[0], args[1], |args[2]| > 0))
    else Err(TypeError)
  }

  /** The list form `[name, path]` that the `insert` methods document gives the item with that name and path, not yet seen. */
  lemma NamePathList(name: string, path: string)
    ensures ItemOfArgs([name, path]) == Ok(Item(name, path, false))
  {
  }

  /** The Python exceptions the indexes raise on purpose. */
  datatype Error = KeyError(key: string) | TypeError

  datatype Result<T> = Ok(value: T) | Err(error: Error)

  datatype Option<T> = None | Some(value: T)

  /**
    * The item comparisons form a total preorder whose equivalence is "same
    * name": exactly one of `<`, `==`, `>` holds, `<=` is `<` or `==`, `>=` is
    * `>` or `==`, and `!=` is the negation of `==`.
    */
  lemma ItemOrder(a: Item, b: Item)
    ensures a.Lt(b) || a.Eq(b) || a.Gt(b)
    ensures !(a.Lt(b) && a.Eq(b)) && !(a.Lt(b) && a.Gt(b)) && !(a.Eq(b) && a.Gt(b))
    ensures a.Le(b) == (a.Lt(b) || a.Eq(b))
    ensures a.Ge(b) == (a.Gt(b) || a.Eq(b))
    ensures a.Ne(b) == !a.Eq(b)
    ensures a.Lt(b) == b.Gt(a)
  {
    Trichotomy(a.fileName, b.fileName);
  }
}

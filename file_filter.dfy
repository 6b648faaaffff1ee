/**
  * Which files the indexes admit.  The directory walks hand every file to a
  * filter built from its suffix, the `ext` argument and, for a file without
  * suffix, whether the `file` command calls it ASCII text.  That last answer
  * comes from a subprocess and is a parameter here (`isAscii`).
  */
module FileFilter {

  /** The index of the last `c` in `s`, or -1 (Python's `str.rfind`). */
  function RFind(s: string, c: char): (i: int)
    ensures -1 <= i < |s|
    ensures i >= 0 ==> s[i] == c
    ensures forall j :: i < j < |s| ==> s[j] != c
  {
    if |s| == 0 then -1
    else if s[|s| - 1] == c then |s| - 1
    else RFind(s[..|s| - 1], c)
  }

  /**
    * Python's `PurePath.suffix` of a file name: from the last dot to the end,
    * unless there is no dot, the name starts with it, or ends with it
    * (Python 3.12 and 3.13; 3.14 gives `foo.` the suffix `.`).
    */
  function Suffix(name: string): string
  {
    var i := RFind(name, '.');
    if 0 < i < |name| - 1 then name[i..] else ""
  }

  /**
    * A non-empty suffix is a dot followed by at least one character that is
    * not a dot, it ends the name, and something comes before it.
    */
  lemma SuffixShape(name: string)
    ensures var s := Suffix(name);
      s == "" || (
        && 2 <= |s| < |name|
        && s[0] == '.'
        && name[|name| - |s|..] == s
        && forall j :: 1 <= j < |s| ==> s[j] != '.')
  {
  }

  /** A name written `stem.ext`, with a non-empty stem and a non-empty `ext` free of dots, has suffix `.ext`. */
  lemma SuffixOfJoin(stem: string, ext: string)
    requires |stem| > 0 && |ext| > 0
    requires forall j :: 0 <= j < |ext| ==> ext[j] != '.'
    ensures Suffix(stem + "." + ext) == "." + ext
  {
    var name := stem + "." + ext;
    var i := RFind(name, '.');
    assert name[|stem|] == '.';
    assert forall j :: |stem| < j < |name| ==> name[j] == ext[j - |stem| - 1];
    assert name[i..] == "." + ext;
  }

  /** A name without any dot has no suffix. */
  lemma NoDotNoSuffix(name: string)
    requires forall j :: 0 <= j < |name| ==> name[j] != '.'
    ensures Suffix(name) == ""
  {
  }

  // ---------------------------------------------------------------- the `ext` argument

  /** `ext` is either a string or a list of strings; Python's `in` means "substring" on the first and "element" on the second. */
  datatype Ext = ExtText(text: string) | ExtList(items: seq<string>)

  /** The default `['.h', '.hh', '']` of every directory walk. */
  const DefaultExt := ExtList([".h", ".hh", ""])

  predicate IsPrefix(x: string, s: string)
  {
    |x| <= |s| && s[..|x|] == x
  }

  /** Python's `x in s` on two strings. */
  predicate IsSubstring(x: string, s: string)
    decreases |s|
  {
    IsPrefix(x, s) || (|s| > 0 && IsSubstring(x, s[1..]))
  }

  /** Python's `x in ext`. */
  predicate In(x: string, ext: Ext)
  {
    match ext
    case ExtText(text) => IsSubstring(x, text)
    case ExtList(items) => x in items
  }

  /** `x` occurs in `s` at index `i`. */
  predicate OccursAt(x: string, s: string, i: int)
  {
    0 <= i <= |s| - |x| && s[i..i + |x|] == x
  }

  /** A substring is a slice, and every slice is a substring. */
  lemma {:induction false} SubstringIsSlice(x: string, s: string)
    ensures IsSubstring(x, s) <==> exists i :: OccursAt(x, s, i)
    decreases |s|
  {
    if IsPrefix(x, s) {
      assert OccursAt(x, s, 0);
    }
    if |s| > 0 {
      SubstringIsSlice(x, s[1..]);
      if exists i :: OccursAt(x, s, i) {
        var i :| OccursAt(x, s, i);
        if i > 0 {
          assert OccursAt(x, s[1..], i - 1);
        }
      }
      if IsSubstring(x, s[1..]) {
        var i :| OccursAt(x, s[1..], i);
        assert OccursAt(x, s, i + 1);
      }
    } else {
      if exists i :: OccursAt(x, s, i) {
        var i :| OccursAt(x, s, i);
        assert i == 0;
      }
    }
  }

  /** The empty string is in every string: Python's `'' in 'anything'`. */
  lemma EmptyInText(text: string)
    ensures In("", ExtText(text))
  {
  }

  // ---------------------------------------------------------------- the filters

  /**
    * The test of `RSNode.insert_dir`: `'*' in ext or file.suffix in ext`, and
    * a file without suffix also needs `is_ascii` when `ascii_only` is set.
    */
  predicate AdmitsUtils(name: string, ext: Ext, asciiOnly: bool, isAscii: bool)
  {
    var suffix := Suffix(name);
    && (In("*", ext) || In(suffix, ext))
    && !(suffix == "" && asciiOnly && !isAscii)
  }

  /**
    * The test of `RSTree.insert_path` in both later tree modules:
    * `ext == '*' or file.suffix in ext`, with the same ASCII condition.
    */
  predicate AdmitsClasses(name: string, ext: Ext, ascii: bool, isAscii: bool)
  {
    var suffix := Suffix(name);
    && (ext == ExtText("*") || In(suffix, ext))
    && !(ascii && suffix == "" && !isAscii)
  }

  /** The test of the earliest `insert_path`: the suffix is one of `.h`, `.hh` or none. */
  predicate AdmitsEarly(name: string)
  {
    Suffix(name) in [".h", ".hh", ""]
  }

  /**
    * With the default `ext` the filters agree: a header or an extensionless
    * file, the latter only if it is ASCII text when the ASCII check is on.
    */
  lemma DefaultFilters(name: string, ascii: bool, isAscii: bool)
    ensures AdmitsUtils(name, DefaultExt, ascii, isAscii) == AdmitsClasses(name, DefaultExt, ascii, isAscii)
    ensures AdmitsClasses(name, DefaultExt, ascii, isAscii) <==>
      AdmitsEarly(name) && (Suffix(name) == "" && ascii ==> isAscii)
    ensures !ascii ==> (AdmitsClasses(name, DefaultExt, ascii, isAscii) <==> AdmitsEarly(name))
  {
    assert !In("*", DefaultExt);
  }

  /** The wildcard admits every file, but for the ASCII condition, in the form each walk documents. */
  lemma Wildcards(name: string, ascii: bool, isAscii: bool)
    ensures AdmitsUtils(name, ExtList(["*"]), ascii, isAscii) <==> !(Suffix(name) == "" && ascii && !isAscii)
    ensures AdmitsClasses(name, ExtText("*"), ascii, isAscii) <==> !(Suffix(name) == "" && ascii && !isAscii)
  {
  }

  /**
    * A string `ext` matches by substring: any suffix found inside the text
    * is admitted, and so is every file without suffix.
    */
  lemma TextExt(name: string, text: string, isAscii: bool)
    ensures Suffix(name) == "" ==> AdmitsUtils(name, ExtText(text), false, isAscii)
    ensures Suffix(name) == "" ==> AdmitsClasses(name, ExtText(text), false, isAscii)
  {
    EmptyInText(text);
  }
}

/**
  * The dependency bookkeeping of rootsense.py.
  *
  * A `Library` gathers what is known about included headers: those found
  * under the ROOT include tree (`root_dependencies`, name to directory),
  * those found in the system include paths (`other_dependencies`), and those
  * found nowhere (`missing_files`).  `dependencies_satisfied` reads the
  * `#include` directives of one header and looks every include not yet known
  * up in the ROOT tree first and the system paths second, giving up at the
  * first include found in neither.
  *
  * The two filesystem searches are parameters: each maps an include name to
  * the directory of its first match (the trimmed path), or to `None`.
  */
module Rootsense {

  datatype Option<T> = None | Some(value: T)

  // ---------------------------------------------------------------- libraries as values

  /** The three collections of a `Library`. */
  datatype LibraryValue = LibraryValue(root: map<string, string>, other: map<string, string>, missing: set<string>)

  /** Everything a library knows about: found anywhere, or known to be missing. */
  function Members(v: LibraryValue): set<string>
  {
    v.root.Keys + v.other.Keys + v.missing
  }

  /**
    * `a | b` on values: each dictionary is the union of the keys with `b`'s
    * entry winning on a shared key, and the missing sets are united.
    */
  function Union(a: LibraryValue, b: LibraryValue): (r: LibraryValue)
    ensures r.root.Keys == a.root.Keys + b.root.Keys
    ensures r.other.Keys == a.other.Keys + b.other.Keys
    ensures r.missing == a.missing + b.missing
    ensures forall k :: k in b.root ==> r.root[k] == b.root[k]
    ensures forall k :: k in a.root && k !in b.root ==> r.root[k] == a.root[k]
    ensures forall k :: k in b.other ==> r.other[k] == b.other[k]
    ensures forall k :: k in a.other && k !in b.other ==> r.other[k] == a.other[k]
  {
    LibraryValue(a.root + b.root, a.other + b.other, a.missing + b.missing)
  }

  /** Membership distributes over `|`: `x in a | b` exactly when `x in a` or `x in b`. */
  lemma UnionMembers(a: LibraryValue, b: LibraryValue)
    ensures Members(Union(a, b)) == Members(a) + Members(b)
  {
  }

  /** The result of the check on one header: the dependencies it found, and whether all were found. */
  datatype Dependency = Dependency(deps: LibraryValue, allGood: bool)
  {
    /** `bool(dependency)`. */
    predicate Truthy()
    {
      allGood
    }
  }

  // ---------------------------------------------------------------- the Library object

  class Library {
    var rootDeps: map<string, string>
    var otherDeps: map<string, string>
    var missing: set<string>

    /** `Library(root, other, missing)`. */
    constructor (root: map<string, string>, other: map<string, string>, miss: set<string>)
      ensures rootDeps == root && otherDeps == other && missing == miss
    {
      rootDeps := root;
      otherDeps := other;
      missing := miss;
    }

    /** The library's three collections as a value. */
    function Value(): LibraryValue
      reads this
    {
      LibraryValue(rootDeps, otherDeps, missing)
    }

    /** `x in library`: a key of either dictionary, or a missing file. */
    predicate Contains(x: string): (b: bool)
      reads this
      ensures b <==> x in Members(Value())
    {
      x in rootDeps || x in otherDeps || x in missing
    }

    /**
      * `self | other`: a new library holding the union, neither operand
      * changed; for anything but a library the answer is `NotImplemented`,
      * here `null`.
      */
    method Or(other: Library?) returns (r: Library?)
      ensures other == null ==> r == null
      ensures other != null ==> r != null && fresh(r) && r.Value() == Union(Value(), other.Value())
    {
      if other == null {
        return null;
      }
      r := new Library(rootDeps + other.rootDeps, otherDeps + other.otherDeps, missing + other.missing);
    }

    /**
      * `self |= other`: `self` takes the union field by field and is
      * returned; for anything but a library nothing changes and the answer
      * is `NotImplemented`, here `null`.
      */
    method OrAssign(other: Library?) returns (r: Library?)
      modifies this
      ensures other == null ==> r == null && unchanged(this)
      ensures other != null ==> r == this && Value() == Union(old(Value()), old(other.Value()))
    {
      if other == null {
        return null;
      }
      rootDeps := rootDeps + other.rootDeps;
      otherDeps := otherDeps + other.otherDeps;
      missing := missing + other.missing;
      r := this;
    }
  }

  // ---------------------------------------------------------------- text

  /**
    * Python's whitespace, the characters `str.strip()` removes: U+0009 to
    * U+000D, U+001C to U+0020, U+0085, U+00A0, U+1680, U+2000 to U+200A,
    * U+2028, U+2029, U+202F, U+205F and U+3000.
    */
  const WhitespaceCodes: seq<int> := [0x9, 0xA, 0xB, 0xC, 0xD, 0x1C, 0x1D, 0x1E, 0x1F, 0x20, 0x85, 0xA0, 0x1680, 0x2000, 0x2001, 0x2002, 0x2003, 0x2004, 0x2005, 0x2006, 0x2007, 0x2008, 0x2009, 0x200A, 0x2028, 0x2029, 0x202F, 0x205F, 0x3000]

  predicate IsSpace(c: char)
  {
    Listed(c as int, WhitespaceCodes)
  }

  predicate Listed(n: int, codes: seq<int>)
  {
    |codes| > 0 && (codes[0] == n || Listed(n, codes[1..]))
  }

  /** Leading whitespace removed. */
  function StripStart(s: string): (r: string)
    ensures |r| <= |s| && r == s[|s| - |r|..]
    ensures |r| == 0 || !IsSpace(r[0])
  {
    if |s| > 0 && IsSpace(s[0]) then StripStart(s[1..]) else s
  }

  /** Only whitespace is removed from the start. */
  lemma {:induction false} StripStartSpaces(s: string)
    ensures forall i :: 0 <= i < |s| - |StripStart(s)| ==> IsSpace(s[i])
  {
    if |s| > 0 && IsSpace(s[0]) {
      StripStartSpaces(s[1..]);
      forall i | 1 <= i < |s| - |StripStart(s)|
        ensures IsSpace(s[i])
      {
        assert s[i] == s[1..][i - 1];
      }
    }
  }

  /** Trailing whitespace removed. */
  function StripEnd(s: string): (r: string)
    ensures |r| <= |s| && r == s[..|r|]
    ensures |r| == 0 || !IsSpace(r[|r| - 1])
  {
    if |s| > 0 && IsSpace(s[|s| - 1]) then StripEnd(s[..|s| - 1]) else s
  }

  /** Only whitespace is removed from the end. */
  lemma {:induction false} StripEndSpaces(s: string)
    ensures forall i :: |StripEnd(s)| <= i < |s| ==> IsSpace(s[i])
  {
    if |s| > 0 && IsSpace(s[|s| - 1]) {
      StripEndSpaces(s[..|s| - 1]);
    }
  }

  /** `s.strip()`. */
  function Strip(s: string): (r: string)
  {
    StripEnd(StripStart(s))
  }

  /**
    * `s.strip()` is the slice of `s` left once the whitespace around it is
    * cut off: it neither starts nor ends with whitespace, and only
    * whitespace lies outside it.
    */
  lemma StripShape(s: string)
    ensures var r, i := Strip(s), |s| - |StripStart(s)|;
      && 0 <= i <= |s| - |r|
      && (forall k :: 0 <= k < |r| ==> r[k] == s[i + k])
      && (forall j :: 0 <= j < i ==> IsSpace(s[j]))
      && (forall j :: i + |r| <= j < |s| ==> IsSpace(s[j]))
    ensures var r := Strip(s); |r| == 0 || (!IsSpace(r[0]) && !IsSpace(r[|r| - 1]))
  {
    var t := StripStart(s);
    var i := |s| - |t|;
    StripStartSpaces(s);
    StripEndSpaces(t);
  }

  /** The index of the first `c` in `s`, or `|s|` when there is none. */
  function Find(s: string, c: char): (i: nat)
    ensures i <= |s|
    ensures i < |s| ==> s[i] == c
    ensures i < |s| <==> c in s
  {
    if |s| == 0 then 0
    else if s[0] == c then 0
    else 1 + Find(s[1..], c)
  }

  /** No `c` comes before the one `Find` finds. */
  lemma {:induction false} FindFirst(s: string, c: char)
    ensures forall k :: 0 <= k < Find(s, c) ==> s[k] != c
  {
    if |s| > 0 && s[0] != c {
      FindFirst(s[1..], c);
      forall k | 1 <= k < Find(s, c)
        ensures s[k] != c
      {
        assert s[k] == s[1..][k - 1];
      }
    }
  }

  /**
    * `s.split(open, 1)[1].split(close, 1)[0]`: the text after the first
    * `open` up to the next `close`, or to the end when no `close` follows.
    */
  function Between(s: string, open: char, close: char): string
    requires open in s
  {
    var i := Find(s, open);
    var rest := s[i + 1..];
    rest[..Find(rest, close)]
  }

  /**
    * `Between` is the start of the text after the first `open`, up to the
    * first `close` in it or to its end: it holds no `close`.
    */
  lemma BetweenShape(s: string, open: char, close: char)
    requires open in s
    ensures var r, rest := Between(s, open, close), s[Find(s, open) + 1..];
      && |r| <= |rest| && r == rest[..|r|]
      && (forall k :: 0 <= k < |r| ==> r[k] != close)
      && (|r| == |rest| || rest[|r|] == close)
  {
    FindFirst(s[Find(s, open) + 1..], close);
  }

  // ---------------------------------------------------------------- the include directives

  /**
    * What one line of a header contributes: once stripped, the line must
    * start with `#include` and hold `<` or `"`; the angle form needs both
    * `<` and `>`, the quote form a `"`, and a line may give both, angle form
    * first.
    */
  function LineIncludes(raw: string): (r: seq<string>)
    ensures |r| <= 2
  {
    var line := Strip(raw);
    if "#include" <= line && ('<' in line || '"' in line) then
      (if '<' in line && '>' in line then [Strip(Between(line, '<', '>'))] else [])
      + (if '"' in line then [Strip(Between(line, '"', '"'))] else [])
    else []
  }

  /** When a line contributes, and what. */
  lemma LineIncludesShape(raw: string)
    ensures var line, r := Strip(raw), LineIncludes(raw);
      |r| > 0 <==> "#include" <= line && (('<' in line && '>' in line) || '"' in line)
    ensures var line, r := Strip(raw), LineIncludes(raw);
      |r| == 2 <==> "#include" <= line && '<' in line && '>' in line && '"' in line
    ensures var line, r := Strip(raw), LineIncludes(raw);
      "#include" <= line && '<' in line && '>' in line ==> r[0] == Strip(Between(line, '<', '>'))
    ensures var line, r := Strip(raw), LineIncludes(raw);
      "#include" <= line && '"' in line ==> r[|r| - 1] == Strip(Between(line, '"', '"'))
  {
  }

  /** What every line contributes, line after line. */
  function Gather(lines: seq<string>, contribution: string -> seq<string>): seq<string>
  {
    if |lines| == 0 then [] else Gather(lines[..|lines| - 1], contribution) + contribution(lines[|lines| - 1])
  }

  /** The includes of a header, in the order of its lines. */
  function Includes(lines: seq<string>): seq<string>
  {
    Gather(lines, LineIncludes)
  }

  /** What two runs of lines contribute is what the first does followed by what the second does. */
  lemma {:induction false} GatherAppend(a: seq<string>, b: seq<string>, contribution: string -> seq<string>)
    ensures Gather(a + b, contribution) == Gather(a, contribution) + Gather(b, contribution)
    decreases |b|
  {
    if |b| == 0 {
      assert a + b == a;
    } else {
      var b' := b[..|b| - 1];
      assert (a + b)[..|a + b| - 1] == a + b';
      GatherAppend(a, b', contribution);
    }
  }

  /** Everything gathered comes from some line, and everything a line contributes is gathered. */
  lemma {:induction false} GatherFromLines(lines: seq<string>, contribution: string -> seq<string>, x: string)
    ensures x in Gather(lines, contribution) <==> exists i :: 0 <= i < |lines| && x in contribution(lines[i])
  {
    if |lines| > 0 {
      var init := lines[..|lines| - 1];
      GatherFromLines(init, contribution, x);
      if x in Gather(init, contribution) {
        var i :| 0 <= i < |init| && x in contribution(init[i]);
        assert lines[i] == init[i];
      }
      if i :| 0 <= i < |lines| && x in contribution(lines[i]) {
        if i < |init| {
          assert init[i] == lines[i];
        }
      }
    }
  }

  /** The directive scan of `dependencies_satisfied`: every line in turn, appending what it contributes. */
  method ExtractIncludes(lines: seq<string>) returns (incs: seq<string>)
    ensures incs == Includes(lines)
  {
    incs := [];
    for i := 0 to |lines|
      invariant incs == Gather(lines[..i], LineIncludes)
    {
      assert lines[..i + 1][..i] == lines[..i];
      incs := incs + LineIncludes(lines[i]);
    }
    assert lines[..|lines|] == lines;
  }

  // ---------------------------------------------------------------- the check

  /** An include the check looks for and finds nowhere. */
  predicate Lost(inc: string, known: LibraryValue, rootSearch: string -> Option<string>, systemSearch: string -> Option<string>)
  {
    inc !in Members(known) && rootSearch(inc).None? && systemSearch(inc).None?
  }

  /** An include the check looks for and finds in the ROOT tree. */
  predicate InRoot(inc: string, known: LibraryValue, rootSearch: string -> Option<string>)
  {
    inc !in Members(known) && rootSearch(inc).Some?
  }

  /** An include the check looks for and finds only in the system paths. */
  predicate InSystem(inc: string, known: LibraryValue, rootSearch: string -> Option<string>, systemSearch: string -> Option<string>)
  {
    inc !in Members(known) && rootSearch(inc).None? && systemSearch(inc).Some?
  }

  /** The index of the first include found nowhere, or `|incs|` when there is none. */
  function FirstLost(incs: seq<string>, known: LibraryValue, rootSearch: string -> Option<string>, systemSearch: string -> Option<string>): (i: nat)
    ensures i <= |incs|
    ensures forall j :: 0 <= j < i ==> !Lost(incs[j], known, rootSearch, systemSearch)
    ensures i < |incs| ==> Lost(incs[i], known, rootSearch, systemSearch)
  {
    if |incs| == 0 then 0
    else if Lost(incs[0], known, rootSearch, systemSearch) then 0
    else 1 + FirstLost(incs[1..], known, rootSearch, systemSearch)
  }

  /**
    * The check from some include on, with what has been found so far: a
    * known include is skipped, an include is looked for in the ROOT tree
    * first and the system paths second, and the first include found nowhere
    * ends the check with only that include, reported missing.
    */
  function Check(incs: seq<string>, known: LibraryValue, rootSearch: string -> Option<string>, systemSearch: string -> Option<string>,
                 root: map<string, string>, other: map<string, string>): Dependency
  {
    if |incs| == 0 then Dependency(LibraryValue(root, other, {}), true)
    else
      var inc := incs[0];
      if inc in Members(known) then Check(incs[1..], known, rootSearch, systemSearch, root, other)
      else match rootSearch(inc)
        case Some(p) => Check(incs[1..], known, rootSearch, systemSearch, root[inc := p], other)
        case None => match systemSearch(inc)
          case Some(p) => Check(incs[1..], known, rootSearch, systemSearch, root, other[inc := p])
          case None => Dependency(LibraryValue(map[], map[], {inc}), false)
  }

  /** The outcome of `dependencies_satisfied` for a header with these includes. */
  function Satisfied(incs: seq<string>, known: LibraryValue, rootSearch: string -> Option<string>, systemSearch: string -> Option<string>): Dependency
  {
    Check(incs, known, rootSearch, systemSearch, map[], map[])
  }

  /** Whatever was found before, the first include found nowhere decides the outcome, and nothing after it is looked at. */
  lemma {:induction false} CheckLost(incs: seq<string>, known: LibraryValue, rootSearch: string -> Option<string>, systemSearch: string -> Option<string>,
                                      root: map<string, string>, other: map<string, string>)
    requires FirstLost(incs, known, rootSearch, systemSearch) < |incs|
    ensures Check(incs, known, rootSearch, systemSearch, root, other)
      == Dependency(LibraryValue(map[], map[], {incs[FirstLost(incs, known, rootSearch, systemSearch)]}), false)
  {
    var inc := incs[0];
    if !Lost(inc, known, rootSearch, systemSearch) {
      var acc :=
        if inc in Members(known) then (root, other)
        else if rootSearch(inc).Some? then (root[inc := rootSearch(inc).value], other)
        else (root, other[inc := systemSearch(inc).value]);
      CheckLost(incs[1..], known, rootSearch, systemSearch, acc.0, acc.1);
    }
  }

  /**
    * When every include is found somewhere, the check succeeds with nothing
    * missing; an include looked for lands in exactly one dictionary, the
    * ROOT one when the ROOT search finds it, with the directory the search
    * gave, and a known include lands in neither unless it was there before.
    */
  lemma {:induction false} CheckFound(incs: seq<string>, known: LibraryValue, rootSearch: string -> Option<string>, systemSearch: string -> Option<string>,
                                       root: map<string, string>, other: map<string, string>)
    requires FirstLost(incs, known, rootSearch, systemSearch) == |incs|
    ensures var d := Check(incs, known, rootSearch, systemSearch, root, other);
      d.allGood && d.deps.missing == {}
    ensures var d := Check(incs, known, rootSearch, systemSearch, root, other);
      forall k :: k in d.deps.root <==> k in root || (k in incs && InRoot(k, known, rootSearch))
    ensures var d := Check(incs, known, rootSearch, systemSearch, root, other);
      forall k :: k in d.deps.other <==> k in other || (k in incs && InSystem(k, known, rootSearch, systemSearch))
    ensures var d := Check(incs, known, rootSearch, systemSearch, root, other);
      forall k :: k in d.deps.root ==>
        d.deps.root[k] == if k in incs && InRoot(k, known, rootSearch) then rootSearch(k).value else root[k]
    ensures var d := Check(incs, known, rootSearch, systemSearch, root, other);
      forall k :: k in d.deps.other ==>
        d.deps.other[k] == if k in incs && InSystem(k, known, rootSearch, systemSearch) then systemSearch(k).value else other[k]
  {
    if |incs| > 0 {
      var inc, rest := incs[0], incs[1..];
      assert FirstLost(rest, known, rootSearch, systemSearch) == |rest|;
      assert forall k :: k in incs <==> k == inc || k in rest;
      if inc in Members(known) {
        CheckFound(rest, known, rootSearch, systemSearch, root, other);
      } else if rootSearch(inc).Some? {
        CheckFound(rest, known, rootSearch, systemSearch, root[inc := rootSearch(inc).value], other);
      } else {
        CheckFound(rest, known, rootSearch, systemSearch, root, other[inc := systemSearch(inc).value]);
      }
    }
  }

  /**
    * The outcome of `dependencies_satisfied`: falsy exactly when some
    * include is found nowhere, and then it reports only the first such
    * include as missing, with empty dictionaries, whatever follows it.
    */
  lemma SatisfiedLost(incs: seq<string>, known: LibraryValue, rootSearch: string -> Option<string>, systemSearch: string -> Option<string>)
    ensures var d, n := Satisfied(incs, known, rootSearch, systemSearch), FirstLost(incs, known, rootSearch, systemSearch);
      !d.Truthy() <==> n < |incs|
    ensures var d, n := Satisfied(incs, known, rootSearch, systemSearch), FirstLost(incs, known, rootSearch, systemSearch);
      n < |incs| ==> d == Dependency(LibraryValue(map[], map[], {incs[n]}), false)
  {
    var n := FirstLost(incs, known, rootSearch, systemSearch);
    if n < |incs| {
      CheckLost(incs, known, rootSearch, systemSearch, map[], map[]);
    } else {
      CheckFound(incs, known, rootSearch, systemSearch, map[], map[]);
    }
  }

  /**
    * Nothing after the first include found nowhere is looked at: any list
    * of includes that agrees with `incs` up to that include has the same
    * outcome.
    */
  lemma LaterNotExamined(incs: seq<string>, longer: seq<string>, known: LibraryValue,
                         rootSearch: string -> Option<string>, systemSearch: string -> Option<string>)
    requires FirstLost(incs, known, rootSearch, systemSearch) < |incs|
    requires FirstLost(incs, known, rootSearch, systemSearch) < |longer|
    requires var n := FirstLost(incs, known, rootSearch, systemSearch); longer[..n + 1] == incs[..n + 1]
    ensures Satisfied(longer, known, rootSearch, systemSearch) == Satisfied(incs, known, rootSearch, systemSearch)
  {
    var n := FirstLost(incs, known, rootSearch, systemSearch);
    FirstLostPrefix(incs, longer, n, known, rootSearch, systemSearch);
    CheckLost(incs, known, rootSearch, systemSearch, map[], map[]);
    CheckLost(longer, known, rootSearch, systemSearch, map[], map[]);
  }

  /** Two include lists that agree up to and including the first lost include of one have the same first lost include. */
  lemma {:induction false} FirstLostPrefix(a: seq<string>, b: seq<string>, n: nat, known: LibraryValue,
                                            rootSearch: string -> Option<string>, systemSearch: string -> Option<string>)
    requires n < |a| && n < |b| && a[..n + 1] == b[..n + 1]
    requires FirstLost(a, known, rootSearch, systemSearch) == n
    ensures FirstLost(b, known, rootSearch, systemSearch) == n
  {
    assert forall j :: 0 <= j <= n ==> b[j] == a[j];
  }

  /**
    * When every include is found, the outcome is truthy with nothing
    * missing; every include looked for is in exactly one dictionary, the
    * ROOT one when the ROOT search finds it, and a known include is in
    * neither.
    */
  lemma SatisfiedFound(incs: seq<string>, known: LibraryValue, rootSearch: string -> Option<string>, systemSearch: string -> Option<string>)
    requires FirstLost(incs, known, rootSearch, systemSearch) == |incs|
    ensures var d := Satisfied(incs, known, rootSearch, systemSearch);
      d.Truthy() && d.deps.missing == {}
    ensures var d := Satisfied(incs, known, rootSearch, systemSearch);
      forall k :: k in d.deps.root <==> k in incs && k !in Members(known) && rootSearch(k).Some?
    ensures var d := Satisfied(incs, known, rootSearch, systemSearch);
      forall k :: k in d.deps.other <==> k in incs && k !in Members(known) && rootSearch(k).None? && systemSearch(k).Some?
    ensures var d := Satisfied(incs, known, rootSearch, systemSearch);
      forall k :: k in d.deps.root ==> d.deps.root[k] == rootSearch(k).value
    ensures var d := Satisfied(incs, known, rootSearch, systemSearch);
      forall k :: k in d.deps.other ==> d.deps.other[k] == systemSearch(k).value
  {
    CheckFound(incs, known, rootSearch, systemSearch, map[], map[]);
  }

  /** A known include is never looked for: searches that differ only on known names give the same outcome. */
  lemma {:induction false} KnownNotSearched(incs: seq<string>, known: LibraryValue,
                                             rootSearch: string -> Option<string>, systemSearch: string -> Option<string>,
                                             rootSearch': string -> Option<string>, systemSearch': string -> Option<string>,
                                             root: map<string, string>, other: map<string, string>)
    requires forall x :: x !in Members(known) ==> rootSearch(x) == rootSearch'(x) && systemSearch(x) == systemSearch'(x)
    ensures Check(incs, known, rootSearch, systemSearch, root, other) == Check(incs, known, rootSearch', systemSearch', root, other)
  {
    if |incs| > 0 {
      var inc := incs[0];
      var acc :=
        if inc in Members(known) then (root, other)
        else if rootSearch(inc).Some? then (root[inc := rootSearch(inc).value], other)
        else if systemSearch(inc).Some? then (root, other[inc := systemSearch(inc).value])
        else (root, other);
      KnownNotSearched(incs[1..], known, rootSearch, systemSearch, rootSearch', systemSearch', acc.0, acc.1);
    }
  }

  /**
    * `dependencies_satisfied(base_folder, file_path, existing_library)`:
    * the header's lines are given, the ROOT search and the system search
    * are the two lookups.  Each include in turn is skipped when known,
    * otherwise recorded under the first search that finds it; the first
    * include neither finds ends the check.
    */
  method DependenciesSatisfied(lines: seq<string>, existing: Library,
                               rootSearch: string -> Option<string>, systemSearch: string -> Option<string>)
    returns (d: Dependency)
    ensures d == Satisfied(Includes(lines), existing.Value(), rootSearch, systemSearch)
  {
    var incs := ExtractIncludes(lines);
    ghost var known := existing.Value();
    var newRoot: map<string, string> := map[];
    var newOther: map<string, string> := map[];
    for i := 0 to |incs|
      invariant Check(incs, known, rootSearch, systemSearch, map[], map[])
        == Check(incs[i..], known, rootSearch, systemSearch, newRoot, newOther)
    {
      var inc := incs[i];
      assert incs[i..][1..] == incs[i + 1..];
      if existing.Contains(inc) {
        continue;
      }
      var found := rootSearch(inc);
      if found.Some? {
        newRoot := newRoot[inc := found.value];
      } else {
        found := systemSearch(inc);
        if found.Some? {
          newOther := newOther[inc := found.value];
        } else {
          return Dependency(LibraryValue(map[], map[], {inc}), false);
        }
      }
    }
    return Dependency(LibraryValue(newRoot, newOther, {}), true);
  }
}

/**
 * Coverage report helpers: shortening of long type names, the display
 * name of a function, the grouping of functions by namespace and type,
 * and the ordering of a group's functions by name.
 *
 * HTML entity unescaping belongs to the Python library and is a parameter
 * (`unescape`); XML parsing and the report output are left out.
 */
module Coverage {
  const TRUNCATE_LENGTH: nat := 80
  const PREFIX_KEEP: nat := 50
  const SUFFIX_KEEP: nat := 30

  /** A function record read from the coverage data. */
  datatype FunctionInfo = FunctionInfo(
    name: string, namespace: string, typeName: string,
    linesCovered: int, linesNotCovered: int, linesPartiallyCovered: int)

  /**
   * "" for an empty name; otherwise the unescaped name, cut to its first
   * 50 and last 30 characters around "..." when longer than 80.
   */
  function ShortenTypeName(typeName: string, unescape: string -> string): (r: string)
  {
    if typeName == "" then ""
    else
      var cleaned := unescape(typeName);
      if |cleaned| <= TRUNCATE_LENGTH then cleaned
      else cleaned[..PREFIX_KEEP] + "..." + cleaned[|cleaned| - SUFFIX_KEEP..]
  }

  /**
   * Short names come back unchanged; a cut name is exactly 83 characters
   * long, three more than the limit, and keeps the original's two ends.
   */
  lemma ShortenTypeNameCases(typeName: string, unescape: string -> string)
    ensures typeName == "" ==> ShortenTypeName(typeName, unescape) == ""
    ensures typeName != "" && |unescape(typeName)| <= TRUNCATE_LENGTH ==>
              ShortenTypeName(typeName, unescape) == unescape(typeName)
    ensures typeName != "" && |unescape(typeName)| > TRUNCATE_LENGTH ==>
              var r, c := ShortenTypeName(typeName, unescape), unescape(typeName);
              && |r| == PREFIX_KEEP + 3 + SUFFIX_KEEP == 83
              && |r| > TRUNCATE_LENGTH
              && r[..PREFIX_KEEP] == c[..PREFIX_KEEP]
              && r[PREFIX_KEEP..PREFIX_KEEP + 3] == "..."
              && r[PREFIX_KEEP + 3..] == c[|c| - SUFFIX_KEEP..]
  {
    if typeName != "" && |unescape(typeName)| > TRUNCATE_LENGTH {
      var c := unescape(typeName);
      var r := c[..PREFIX_KEEP] + "..." + c[|c| - SUFFIX_KEEP..];
      assert r[..PREFIX_KEEP] == c[..PREFIX_KEEP];
      assert r[PREFIX_KEEP..PREFIX_KEEP + 3] == "...";
      assert r[PREFIX_KEEP + 3..] == c[|c| - SUFFIX_KEEP..];
    }
  }

  /** "name (shortened type)" when there is a type name, the name alone otherwise. */
  function FormatFunctionName(name: string, typeName: string, unescape: string -> string): (r: string)
    ensures typeName == "" ==> r == name
    ensures typeName != "" ==> r == name + " (" + ShortenTypeName(typeName, unescape) + ")"
  {
    if typeName != "" then name + " (" + ShortenTypeName(typeName, unescape) + ")" else name
  }

  // ---------------------------------------------------------------- grouping

  type GroupKey = (string, string)

  function Key(f: FunctionInfo): GroupKey
  {
    (f.namespace, f.typeName)
  }

  /** The functions with the given key, in input order. */
  function WithKey(fs: seq<FunctionInfo>, k: GroupKey): (r: seq<FunctionInfo>)
    ensures forall i :: 0 <= i < |r| ==> Key(r[i]) == k
    ensures multiset(r) <= multiset(fs)
  {
    if fs == [] then []
    else
      var before := WithKey(fs[..|fs| - 1], k);
      assert fs == fs[..|fs| - 1] + [fs[|fs| - 1]];
      if Key(fs[|fs| - 1]) == k then before + [fs[|fs| - 1]] else before
  }

  predicate Occurs(fs: seq<FunctionInfo>, k: GroupKey)
  {
    exists i :: 0 <= i < |fs| && Key(fs[i]) == k
  }

  /** The groups: one per key that occurs, holding that key's functions in input order. */
  ghost predicate GroupsOf(groups: map<GroupKey, seq<FunctionInfo>>, fs: seq<FunctionInfo>)
  {
    && (forall k :: k in groups <==> Occurs(fs, k))
    && (forall k :: k in groups ==> groups[k] == WithKey(fs, k))
  }

  /** Groups every function by its (namespace, type name) key, keeping input order within each group. */
  method GroupFunctions(functions: seq<FunctionInfo>) returns (groups: map<GroupKey, seq<FunctionInfo>>)
    ensures GroupsOf(groups, functions)
  {
    groups := map[];
    var i := 0;
    while i < |functions|
      invariant 0 <= i <= |functions|
      invariant GroupsOf(groups, functions[..i])
    {
      var f := functions[i];
      var k := Key(f);
      assert functions[..i + 1] == functions[..i] + [f];
      GroupStep(groups, functions[..i], f);
      if k in groups {
        groups := groups[k := groups[k] + [f]];
      } else {
        groups := groups[k := [f]];
      }
      i := i + 1;
    }
    assert functions[..i] == functions;
  }

  /** Appending a function to its key's group, opening the group if needed, groups one more function. */
  lemma GroupStep(groups: map<GroupKey, seq<FunctionInfo>>, fs: seq<FunctionInfo>, f: FunctionInfo)
    requires GroupsOf(groups, fs)
    ensures GroupsOf(if Key(f) in groups then groups[Key(f) := groups[Key(f)] + [f]] else groups[Key(f) := [f]], fs + [f])
  {
    var k := Key(f);
    var after := if k in groups then groups[k := groups[k] + [f]] else groups[k := [f]];
    forall j ensures j in after <==> Occurs(fs + [f], j) {
      OccursStep(fs, f, j);
    }
    forall j | j in after ensures after[j] == WithKey(fs + [f], j) {
      WithKeyStep(fs, f, j);
      if j == k && k !in groups {
        WithKeyAbsent(fs, k);
      }
    }
  }

  /** A key occurs after appending f exactly when it occurred before or is f's key. */
  lemma OccursStep(fs: seq<FunctionInfo>, f: FunctionInfo, j: GroupKey)
    ensures Occurs(fs + [f], j) <==> Occurs(fs, j) || j == Key(f)
  {
    var next := fs + [f];
    if Occurs(next, j) {
      var p :| 0 <= p < |next| && Key(next[p]) == j;
      if p < |fs| {
        assert Key(fs[p]) == j;
      }
    }
    if Occurs(fs, j) {
      var p :| 0 <= p < |fs| && Key(fs[p]) == j;
      assert Key(next[p]) == j;
    }
    assert Key(next[|fs|]) == Key(f);
  }

  /** Appending f adds it to its own key's functions and leaves the other keys' alone. */
  lemma WithKeyStep(fs: seq<FunctionInfo>, f: FunctionInfo, j: GroupKey)
    ensures WithKey(fs + [f], j) == if Key(f) == j then WithKey(fs, j) + [f] else WithKey(fs, j)
  {
    var next := fs + [f];
    assert next[..|next| - 1] == fs;
  }

  /** A key that does not occur has no functions. */
  lemma {:induction false} WithKeyAbsent(fs: seq<FunctionInfo>, k: GroupKey)
    requires !Occurs(fs, k)
    ensures WithKey(fs, k) == []
  {
    if fs != [] {
      WithKeyAbsent(fs[..|fs| - 1], k);
    }
  }

  /** Every function lands in its own key's group, as often as it occurs; groups hold nothing else. */
  lemma {:induction false} WithKeyCounts(fs: seq<FunctionInfo>, f: FunctionInfo)
    ensures multiset(WithKey(fs, Key(f)))[f] == multiset(fs)[f]
  {
    if fs != [] {
      WithKeyCounts(fs[..|fs| - 1], f);
      assert fs == fs[..|fs| - 1] + [fs[|fs| - 1]];
    }
  }

  // ----------------------------------------------------------------- sorting

  /** Code-point lexicographic order on strings, as Python compares them. */
  predicate StrLe(a: string, b: string)
  {
    a == [] || (b != [] && (a[0] < b[0] || (a[0] == b[0] && StrLe(a[1..], b[1..]))))
  }

  lemma {:induction false} StrLeTotal(a: string, b: string)
    ensures StrLe(a, b) || StrLe(b, a)
  {
    if a != [] && b != [] && a[0] == b[0] {
      StrLeTotal(a[1..], b[1..]);
    }
  }

  lemma {:induction false} StrLeTransitive(a: string, b: string, c: string)
    requires StrLe(a, b) && StrLe(b, c)
    ensures StrLe(a, c)
  {
    if a != [] && b != [] && c != [] && a[0] == b[0] && b[0] == c[0] {
      StrLeTransitive(a[1..], b[1..], c[1..]);
    }
  }

  predicate SortedByName(fs: seq<FunctionInfo>)
  {
    forall i, j :: 0 <= i < j < |fs| ==> StrLe(fs[i].name, fs[j].name)
  }

  /** Puts `f` before the first function whose name is not smaller, which keeps equal names in input order. */
  function InsertByName(f: FunctionInfo, fs: seq<FunctionInfo>): (r: seq<FunctionInfo>)
    ensures multiset(r) == multiset(fs) + multiset{f}
    ensures |r| == |fs| + 1
  {
    if fs == [] then [f]
    else if StrLe(f.name, fs[0].name) then [f] + fs
    else
      assert fs == [fs[0]] + fs[1..];
      [fs[0]] + InsertByName(f, fs[1..])
  }

  lemma {:induction false} InsertKeepsSorted(f: FunctionInfo, fs: seq<FunctionInfo>)
    requires SortedByName(fs)
    ensures SortedByName(InsertByName(f, fs))
    ensures InsertByName(f, fs)[0] == f || (fs != [] && InsertByName(f, fs)[0] == fs[0])
  {
    if fs != [] {
      if StrLe(f.name, fs[0].name) {
        forall j | 0 <= j < |fs| ensures StrLe(f.name, fs[j].name) {
          if j > 0 {
            StrLeTransitive(f.name, fs[0].name, fs[j].name);
          }
        }
        PrependSorted(f, fs);
      } else {
        StrLeTotal(f.name, fs[0].name);
        InsertKeepsSorted(f, fs[1..]);
        var rest := InsertByName(f, fs[1..]);
        HeadBelowRest(f, fs, rest);
        PrependSorted(fs[0], rest);
      }
    }
  }

  /** A function no later than the first of a sorted list keeps it sorted when put in front. */
  lemma PrependSorted(f: FunctionInfo, fs: seq<FunctionInfo>)
    requires SortedByName(fs)
    requires forall j :: 0 <= j < |fs| ==> StrLe(f.name, fs[j].name)
    ensures SortedByName([f] + fs)
  {
    var r := [f] + fs;
    forall i, j | 0 <= i < j < |r| ensures StrLe(r[i].name, r[j].name) {
      if i > 0 {
        assert r[i] == fs[i - 1] && r[j] == fs[j - 1];
      } else {
        assert r[j] == fs[j - 1];
      }
    }
  }

  /** The head of a sorted list is no later than anything of its tail with f inserted, when it is no later than f. */
  lemma HeadBelowRest(f: FunctionInfo, fs: seq<FunctionInfo>, rest: seq<FunctionInfo>)
    requires SortedByName(fs) && fs != [] && StrLe(fs[0].name, f.name)
    requires multiset(rest) == multiset(fs[1..]) + multiset{f}
    ensures forall j :: 0 <= j < |rest| ==> StrLe(fs[0].name, rest[j].name)
  {
    forall j | 0 <= j < |rest| ensures StrLe(fs[0].name, rest[j].name) {
      assert rest[j] in multiset(rest);
      if rest[j] != f {
        assert rest[j] in multiset(fs[1..]);
        var p :| 0 <= p < |fs[1..]| && fs[1..][p] == rest[j];
        assert fs[p + 1] == rest[j];
      }
    }
  }

  /** The functions ordered by name; functions of the same name keep their input order. */
  function SortFunctions(fs: seq<FunctionInfo>): (r: seq<FunctionInfo>)
    ensures multiset(r) == multiset(fs)
  {
    if fs == [] then []
    else
      assert fs == [fs[0]] + fs[1..];
      InsertByName(fs[0], SortFunctions(fs[1..]))
  }

  /** The sorted list is sorted by name and is a permutation of the input. */
  lemma {:induction false} SortFunctionsSorted(fs: seq<FunctionInfo>)
    ensures SortedByName(SortFunctions(fs))
    ensures multiset(SortFunctions(fs)) == multiset(fs)
    ensures |SortFunctions(fs)| == |fs|
  {
    if fs != [] {
      SortFunctionsSorted(fs[1..]);
      InsertKeepsSorted(fs[0], SortFunctions(fs[1..]));
    }
  }
}

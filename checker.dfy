/**
  The ingestion half of the latest-version checker: the `--ignore-packages`
  argument, the line handler that collects the distinct `group:artifact:version`
  coordinates not ignored, and the close handler's sorted list of them.

  `localeCompare` is replaced by plain lexicographic order on characters
  (`Before`).
 */
module LatestVersionChecker {
  import opened Wrappers
  import opened Strings
  import opened Matcher

  // ----- arguments -----

  const IgnoreFlag: string := "--ignore-packages"

  /** The first index of the arguments holding `flag`, or -1 when none does. */
  function FindIndex(args: seq<string>, flag: string): (r: int)
    ensures -1 <= r < |args|
    ensures r >= 0 ==> args[r] == flag && forall j :: 0 <= j < r ==> args[j] != flag
    ensures r == -1 ==> forall j :: 0 <= j < |args| ==> args[j] != flag
  {
    if |args| == 0 then -1
    else if args[0] == flag then 0
    else
      var r := FindIndex(args[1..], flag);
      if r == -1 then -1 else r + 1
  }

  /**
    The ignore list: the argument after the first `--ignore-packages`, split on
    commas; `undefined` (here `None`) when the flag is absent or is the last
    argument.
   */
  function IgnorePackages(args: seq<string>): Option<seq<string>> {
    var idx := FindIndex(args, IgnoreFlag) + 1;
    if idx > 0 && |args| > idx then Some(Split(args[idx], ',')) else None
  }

  /** The argument after the first occurrence of the flag is the ignore list. */
  lemma IgnorePackagesGiven(pre: seq<string>, value: string, post: seq<string>)
    requires IgnoreFlag !in pre
    ensures IgnorePackages(pre + [IgnoreFlag, value] + post) == Some(Split(value, ','))
  {
    var args := pre + [IgnoreFlag, value] + post;
    assert args[|pre|] == IgnoreFlag && args[|pre| + 1] == value;
    forall j | 0 <= j < |pre| ensures args[j] != IgnoreFlag {
      assert args[j] == pre[j];
    }
  }

  /** Without the flag, or with the flag as the last argument, nothing is ignored. */
  lemma IgnorePackagesMissing(args: seq<string>)
    requires IgnoreFlag !in args || (IgnoreFlag !in args[..|args| - 1] && args[|args| - 1] == IgnoreFlag)
    ensures IgnorePackages(args) == None
  {
  }

  // ----- collected coordinates -----

  /** `{groupId, artifactId, version}` */
  datatype Dep = Dep(groupId: string, artifactId: string, version: string)

  /** Group, artifact and version joined by colons: the key of `deps` and of the sort. */
  function ArtifactName(d: Dep): string {
    d.groupId + ":" + d.artifactId + ":" + d.version
  }

  /** The fields the matcher produces never hold `:`. */
  predicate WellFormedDep(d: Dep) {
    IsField(d.groupId) && IsField(d.artifactId) && IsField(d.version)
  }

  /** A line's coordinate, read by the same pattern as the HTML generator; packaging and scope are dropped. */
  function Extract(line: string): Option<Dep> {
    match Match(line)
    case Some((_, c)) => Some(Dep(c.groupId, c.artifactId, c.version))
    case None => None
  }

  /** An extracted coordinate is well formed: its fields hold no `:`. */
  lemma ExtractWellFormed(line: string)
    requires Extract(line).Some?
    ensures WellFormedDep(Extract(line).value)
  {
    MatchSound(line);
  }

  /** A dependency line yields its group, artifact and version (the fourth field). */
  lemma ExtractOf(pre: string, prefix: string, c: Coord)
    requires AllPrefixChars(prefix) && WellFormed(c) && c.groupId[0] != '-'
    ensures Extract(pre + "INFO]" + prefix + Text(c)) == Some(Dep(c.groupId, c.artifactId, c.version))
  {
    MatchWellFormedLine(pre, prefix, Text(c), c);
  }

  lemma ColonFree(s: string)
    requires IsField(s)
    ensures ':' !in s
  {
    forall i | 0 <= i < |s| ensures s[i] != ':' {
      assert IsFieldChar(s[i]);
    }
  }

  lemma JoinThree(d: Dep)
    ensures Join([d.groupId, d.artifactId, d.version], ':') == ArtifactName(d)
  {
    var p := [d.groupId, d.artifactId, d.version];
    assert p[1..] == [d.artifactId, d.version] && p[1..][1..] == [d.version];
    assert Join(p[1..][1..], ':') == d.version;
    assert Join(p[1..], ':') == d.artifactId + [':'] + d.version;
    assert ":" == [':'];
  }

  /** Distinct well-formed coordinates have distinct artifact names. */
  lemma ArtifactNameInjective(d1: Dep, d2: Dep)
    requires WellFormedDep(d1) && WellFormedDep(d2)
    requires ArtifactName(d1) == ArtifactName(d2)
    ensures d1 == d2
  {
    ColonFree(d1.groupId); ColonFree(d1.artifactId); ColonFree(d1.version);
    ColonFree(d2.groupId); ColonFree(d2.artifactId); ColonFree(d2.version);
    var p1, p2 := [d1.groupId, d1.artifactId, d1.version], [d2.groupId, d2.artifactId, d2.version];
    JoinThree(d1);
    JoinThree(d2);
    SplitJoin(p1, ':');
    SplitJoin(p2, ':');
  }

  // ----- the ignore filter -----

  /** `entries[i]` is the first entry that is a prefix of `name`. */
  predicate FirstPrefixAt(entries: seq<string>, name: string, i: int) {
    0 <= i < |entries| && StartsWith(name, entries[i])
    && forall j :: 0 <= j < i ==> !StartsWith(name, entries[j])
  }

  /** The JavaScript `find` of the first entry that is a prefix of `name`. */
  function FindPrefix(entries: seq<string>, name: string): (r: Option<string>)
    ensures r.Some? ==> exists i :: FirstPrefixAt(entries, name, i) && entries[i] == r.value
    ensures r.None? <==> forall i :: 0 <= i < |entries| ==> !StartsWith(name, entries[i])
  {
    if |entries| == 0 then None
    else if StartsWith(name, entries[0]) then
      assert FirstPrefixAt(entries, name, 0);
      Some(entries[0])
    else
      var r := FindPrefix(entries[1..], name);
      assert forall i :: 1 <= i < |entries| ==> entries[i] == entries[1..][i - 1];
      if r.Some? then FirstPrefixShift(entries, name, r.value); r else r
  }

  /** The first prefix entry of the rest of a list whose head is no prefix is the first of the list. */
  lemma FirstPrefixShift(entries: seq<string>, name: string, v: string)
    requires |entries| > 0 && !StartsWith(name, entries[0])
    requires exists i :: FirstPrefixAt(entries[1..], name, i) && entries[1..][i] == v
    ensures exists i :: FirstPrefixAt(entries, name, i) && entries[i] == v
  {
    var i :| FirstPrefixAt(entries[1..], name, i) && entries[1..][i] == v;
    assert entries[i + 1] == v;
    forall j | 0 <= j < i + 1 ensures !StartsWith(name, entries[j]) {
      if j > 0 {
        assert entries[j] == entries[1..][j - 1];
      }
    }
    assert FirstPrefixAt(entries, name, i + 1);
  }

  /**
    The skip test of the line handler as written: the line is skipped when
    `find` returns a truthy value, and the empty string that `find` returns
    for an empty entry is falsy.
   */
  predicate IgnoredAsWritten(ignore: Option<seq<string>>, name: string) {
    ignore.Some? && match FindPrefix(ignore.value, name) case Some(e) => e != "" case None => false
  }

  /** As written, a name is skipped iff the first entry that is a prefix of it is non-empty. */
  lemma IgnoredAsWrittenSpec(ignore: Option<seq<string>>, name: string)
    ensures IgnoredAsWritten(ignore, name) <==> ignore.Some? && exists i ::
      FirstPrefixAt(ignore.value, name, i) && ignore.value[i] != ""
  {
    if ignore.Some? {
      var e := ignore.value;
      if exists i :: FirstPrefixAt(e, name, i) && e[i] != "" {
        var i :| FirstPrefixAt(e, name, i) && e[i] != "";
        var r := FindPrefix(e, name);
        var k :| FirstPrefixAt(e, name, k) && e[k] == r.value;
        FirstPrefixUnique(e, name, i, k);
      }
    }
  }

  lemma FirstPrefixUnique(entries: seq<string>, name: string, i: int, k: int)
    requires FirstPrefixAt(entries, name, i) && FirstPrefixAt(entries, name, k)
    ensures i == k
  {
  }

  /** The entries of an ignore list other than the empty string, in order. */
  function NonEmptyEntries(entries: seq<string>): (r: seq<string>)
    ensures forall e :: e in r <==> e in entries && e != ""
  {
    if |entries| == 0 then []
    else (if entries[0] == "" then [] else [entries[0]]) + NonEmptyEntries(entries[1..])
  }

  /**
    The skip test as evidently intended: some non-empty entry of the ignore
    list is a prefix of the name. An empty entry, as left by a stray comma,
    ignores nothing.
   */
  function Ignored(ignore: Option<seq<string>>, name: string): (r: bool)
    ensures r <==> ignore.Some? && exists i :: 0 <= i < |ignore.value| && ignore.value[i] != "" && StartsWith(name, ignore.value[i])
  {
    if ignore.None? then false
    else
      NonEmptyPrefix(ignore.value, name);
      FindPrefix(NonEmptyEntries(ignore.value), name).Some?
  }

  /** Searching the non-empty entries finds one exactly when some non-empty entry is a prefix. */
  lemma NonEmptyPrefix(entries: seq<string>, name: string)
    ensures FindPrefix(NonEmptyEntries(entries), name).Some?
      <==> exists i :: 0 <= i < |entries| && entries[i] != "" && StartsWith(name, entries[i])
  {
    var ne := NonEmptyEntries(entries);
    var r := FindPrefix(ne, name);
    if r.Some? {
      var k :| FirstPrefixAt(ne, name, k) && ne[k] == r.value;
      assert ne[k] in ne;
      var i :| 0 <= i < |entries| && entries[i] == ne[k];
    }
    if exists i :: 0 <= i < |entries| && entries[i] != "" && StartsWith(name, entries[i]) {
      var i :| 0 <= i < |entries| && entries[i] != "" && StartsWith(name, entries[i]);
      assert entries[i] in ne;
      var m :| 0 <= m < |ne| && ne[m] == entries[i];
    }
  }

  /** As written, the filter drops no name that the intended filter keeps. */
  lemma IgnoredAsWrittenDropsLess(ignore: Option<seq<string>>, name: string)
    requires IgnoredAsWritten(ignore, name)
    ensures Ignored(ignore, name)
  {
    IgnoredAsWrittenSpec(ignore, name);
  }

  /**
    An ignore list starting with an empty entry (`--ignore-packages ,com.foo`)
    ignores nothing as written, even a name that a later entry is a prefix of.
   */
  lemma LeadingEmptyEntryIgnoresNothing(rest: seq<string>, name: string, i: nat)
    requires i < |rest| && rest[i] != "" && StartsWith(name, rest[i])
    ensures !IgnoredAsWritten(Some([""] + rest), name)
    ensures Ignored(Some([""] + rest), name)
  {
    assert StartsWith(name, "");
    assert ([""] + rest)[0] == "";
    assert ([""] + rest)[i + 1] == rest[i];
  }

  /** The concrete case: `com.foo:x:1` is kept although `com.foo` is in the list. */
  lemma IgnoreFilterCounterexample()
    ensures !IgnoredAsWritten(Some(["", "com.foo"]), "com.foo:x:1")
    ensures Ignored(Some(["", "com.foo"]), "com.foo:x:1")
  {
    assert StartsWith("com.foo:x:1", "com.foo");
    LeadingEmptyEntryIgnoresNothing(["com.foo"], "com.foo:x:1", 0);
    assert [""] + ["com.foo"] == ["", "com.foo"];
  }

  /** Without empty entries the filter as written and as intended agree. */
  lemma IgnoredAgrees(ignore: Option<seq<string>>, name: string)
    requires ignore.Some? ==> "" !in ignore.value
    ensures IgnoredAsWritten(ignore, name) == Ignored(ignore, name)
  {
    if ignore.Some? && Ignored(ignore, name) {
      var r := FindPrefix(ignore.value, name);
      var k :| FirstPrefixAt(ignore.value, name, k) && ignore.value[k] == r.value;
      assert ignore.value[k] in ignore.value;
    }
  }

  /** A trailing comma (`--ignore-packages com.foo,`) changes neither filter. */
  lemma TrailingEmptyEntry(entries: seq<string>, name: string)
    requires "" !in entries
    ensures IgnoredAsWritten(Some(entries + [""]), name) == IgnoredAsWritten(Some(entries), name)
    ensures Ignored(Some(entries + [""]), name) == Ignored(Some(entries), name)
  {
    var e := entries + [""];
    assert forall i :: 0 <= i < |entries| ==> e[i] == entries[i];
    IgnoredAsWrittenSpec(Some(e), name);
    IgnoredAsWrittenSpec(Some(entries), name);
  }

  /** What the line handler keeps from a line: a matched coordinate that is not ignored. */
  function Kept(ignore: Option<seq<string>>, line: string): Option<Dep> {
    match Extract(line)
    case Some(d) => if Ignored(ignore, ArtifactName(d)) then None else Some(d)
    case None => None
  }

  /**
    Where `Kept` and the program part: under an ignore list whose first entry
    is empty (`--ignore-packages ,com.foo`), a dependency line whose name a
    later non-empty entry is a prefix of is extracted and passes the skip test
    as written, so the program stores it, while `Kept` drops it.
   */
  lemma KeptDropsStoredLine(pre: string, prefix: string, c: Coord, rest: seq<string>, i: nat)
    requires AllPrefixChars(prefix) && WellFormed(c) && c.groupId[0] != '-'
    requires i < |rest| && rest[i] != ""
    requires StartsWith(ArtifactName(Dep(c.groupId, c.artifactId, c.version)), rest[i])
    ensures var line, d := pre + "INFO]" + prefix + Text(c), Dep(c.groupId, c.artifactId, c.version);
      && Extract(line) == Some(d)
      && !IgnoredAsWritten(Some([""] + rest), ArtifactName(d))
      && Kept(Some([""] + rest), line) == None
  {
    ExtractOf(pre, prefix, c);
    LeadingEmptyEntryIgnoresNothing(rest, ArtifactName(Dep(c.groupId, c.artifactId, c.version)), i);
  }

  /** The `deps` key a line stores under, if any. */
  function KeptName(ignore: Option<seq<string>>, line: string): Option<string> {
    match Kept(ignore, line) case Some(d) => Some(ArtifactName(d)) case None => None
  }

  /** The names `f` yields for the elements of `xs`. */
  function Gather<T>(xs: seq<T>, f: T -> Option<string>): set<string> {
    if |xs| == 0 then {}
    else Gather(xs[..|xs| - 1], f) + match f(xs[|xs| - 1]) case Some(n) => {n} case None => {}
  }

  lemma {:induction false} GatherSpec<T>(xs: seq<T>, f: T -> Option<string>, name: string)
    ensures name in Gather(xs, f) <==> exists i :: 0 <= i < |xs| && f(xs[i]) == Some(name)
  {
    if |xs| > 0 {
      var init := xs[..|xs| - 1];
      GatherSpec(init, f, name);
      if name in Gather(xs, f) {
        if name in Gather(init, f) {
          var i :| 0 <= i < |init| && f(init[i]) == Some(name);
          assert xs[i] == init[i];
        } else {
          assert f(xs[|xs| - 1]) == Some(name);
        }
      } else {
        forall i | 0 <= i < |xs| ensures f(xs[i]) != Some(name) {
          if i < |init| {
            assert xs[i] == init[i];
          }
        }
      }
    }
  }

  /** The names of the kept coordinates of `lines`. */
  function KeptNames(ignore: Option<seq<string>>, lines: seq<string>): set<string> {
    Gather(lines, line => KeptName(ignore, line))
  }

  /** A name is kept exactly when some line yields a non-ignored coordinate of that name. */
  lemma KeptNamesSpec(ignore: Option<seq<string>>, lines: seq<string>, name: string)
    ensures name in KeptNames(ignore, lines) <==> exists i :: 0 <= i < |lines| && KeptName(ignore, lines[i]) == Some(name)
  {
    GatherSpec(lines, line => KeptName(ignore, line), name);
  }

  /** Reading one more line adds its kept name, if any. */
  lemma KeptNamesStep(ignore: Option<seq<string>>, lines: seq<string>, line: string)
    ensures KeptNames(ignore, lines + [line])
      == KeptNames(ignore, lines) + match KeptName(ignore, line) case Some(n) => {n} case None => {}
  {
    assert (lines + [line])[..|lines|] == lines;
  }

  // ----- lexicographic order -----

  /** `x` sorts strictly before `y`: a proper prefix, or smaller at the first difference. */
  predicate Before(x: string, y: string) {
    if |x| == 0 then |y| > 0
    else if |y| == 0 then false
    else if x[0] != y[0] then x[0] < y[0]
    else Before(x[1..], y[1..])
  }

  lemma {:induction false} BeforeIrreflexive(x: string)
    ensures !Before(x, x)
  {
    if |x| > 0 {
      BeforeIrreflexive(x[1..]);
    }
  }

  lemma {:induction false} BeforeTransitive(x: string, y: string, z: string)
    requires Before(x, y) && Before(y, z)
    ensures Before(x, z)
  {
    if |x| > 0 && x[0] == y[0] && y[0] == z[0] {
      BeforeTransitive(x[1..], y[1..], z[1..]);
    }
  }

  lemma {:induction false} BeforeTotal(x: string, y: string)
    ensures x == y || Before(x, y) || Before(y, x)
  {
    if |x| > 0 && |y| > 0 && x[0] == y[0] {
      BeforeTotal(x[1..], y[1..]);
      if x[1..] == y[1..] {
        assert x == [x[0]] + x[1..] && y == [y[0]] + y[1..];
      }
    }
  }

  // ----- sorting -----

  /** Strictly ascending by artifact name. */
  predicate SortedByName(s: seq<Dep>) {
    forall i, j :: 0 <= i < j < |s| ==> Before(ArtifactName(s[i]), ArtifactName(s[j]))
  }

  /** No two elements share an artifact name. */
  predicate DistinctNames(s: seq<Dep>) {
    forall i, j :: 0 <= i < j < |s| ==> ArtifactName(s[i]) != ArtifactName(s[j])
  }

  /** Inserts `d` into a sorted sequence before the first element whose name follows its own. */
  function Insert(s: seq<Dep>, d: Dep): (r: seq<Dep>)
    requires SortedByName(s)
    requires forall i :: 0 <= i < |s| ==> ArtifactName(s[i]) != ArtifactName(d)
    ensures SortedByName(r)
    ensures multiset(r) == multiset(s) + multiset{d}
  {
    if |s| == 0 then [d]
    else if Before(ArtifactName(d), ArtifactName(s[0])) then
      SortedFirst(d, s);
      SortedPrepend(d, s);
      [d] + s
    else
      var t := Insert(s[1..], d);
      BeforeTotal(ArtifactName(d), ArtifactName(s[0]));
      SortedRest(s);
      NamesAfter(ArtifactName(s[0]), t, s[1..], d);
      SortedPrepend(s[0], t);
      assert s == [s[0]] + s[1..];
      [s[0]] + t
  }

  /** Sorts a sequence of coordinates with distinct names by name. */
  function SortByName(s: seq<Dep>): (r: seq<Dep>)
    requires DistinctNames(s)
    ensures SortedByName(r)
    ensures multiset(r) == multiset(s)
  {
    if |s| == 0 then []
    else
      var init, last := s[..|s| - 1], s[|s| - 1];
      assert DistinctNames(init);
      var t := SortByName(init);
      NamesDiffer(t, init, ArtifactName(last));
      assert s == init + [last];
      Insert(t, last)
  }

  /** A name before the first of a sorted sequence is before all of it. */
  lemma SortedFirst(d: Dep, s: seq<Dep>)
    requires SortedByName(s) && |s| > 0
    requires Before(ArtifactName(d), ArtifactName(s[0]))
    ensures forall j :: 0 <= j < |s| ==> Before(ArtifactName(d), ArtifactName(s[j]))
  {
    forall j | 0 < j < |s| ensures Before(ArtifactName(d), ArtifactName(s[j])) {
      BeforeTransitive(ArtifactName(d), ArtifactName(s[0]), ArtifactName(s[j]));
    }
  }

  /** The head of a sorted sequence is before the rest of it. */
  lemma SortedRest(s: seq<Dep>)
    requires SortedByName(s) && |s| > 0
    ensures SortedByName(s[1..])
    ensures forall m :: 0 <= m < |s[1..]| ==> Before(ArtifactName(s[0]), ArtifactName(s[1..][m]))
  {
  }

  /** An element before every element of a sorted sequence can go in front of it. */
  lemma SortedPrepend(d: Dep, s: seq<Dep>)
    requires SortedByName(s)
    requires forall j :: 0 <= j < |s| ==> Before(ArtifactName(d), ArtifactName(s[j]))
    ensures SortedByName([d] + s)
  {
  }

  /** Everything in `t`, which holds `s` and `d`, has a name after `x` when those do. */
  lemma NamesAfter(x: string, t: seq<Dep>, s: seq<Dep>, d: Dep)
    requires multiset(t) == multiset(s) + multiset{d}
    requires Before(x, ArtifactName(d))
    requires forall m :: 0 <= m < |s| ==> Before(x, ArtifactName(s[m]))
    ensures forall j :: 0 <= j < |t| ==> Before(x, ArtifactName(t[j]))
  {
    forall j | 0 <= j < |t| ensures Before(x, ArtifactName(t[j])) {
      assert t[j] in multiset(t);
      if t[j] != d {
        assert t[j] in multiset(s);
        var m :| 0 <= m < |s| && s[m] == t[j];
      }
    }
  }

  /** A permutation of `s` has no name that `s` lacks. */
  lemma NamesDiffer(t: seq<Dep>, s: seq<Dep>, name: string)
    requires multiset(t) == multiset(s)
    requires forall m :: 0 <= m < |s| ==> ArtifactName(s[m]) != name
    ensures forall i :: 0 <= i < |t| ==> ArtifactName(t[i]) != name
  {
    forall i | 0 <= i < |t| ensures ArtifactName(t[i]) != name {
      assert t[i] in multiset(s);
      var m :| 0 <= m < |s| && s[m] == t[i];
    }
  }

  /** Two non-empty sequences sorted by name that hold the same elements start alike. */
  lemma SortedSameHead(a: seq<Dep>, b: seq<Dep>)
    requires SortedByName(a) && SortedByName(b)
    requires |a| > 0 && |b| > 0 && multiset(a) == multiset(b)
    ensures a[0] == b[0]
  {
    assert a[0] in multiset(b) && b[0] in multiset(a);
    if a[0] != b[0] {
      var i :| 0 <= i < |b| && b[i] == a[0];
      var j :| 0 <= j < |a| && a[j] == b[0];
      var x, y := ArtifactName(a[0]), ArtifactName(b[0]);
      assert Before(x, y) by {
        assert j > 0;
      }
      assert Before(y, x) by {
        assert i > 0;
      }
      BeforeTransitive(x, y, x);
      BeforeIrreflexive(x);
      assert false;
    }
  }

  /** Two sequences sorted by name that hold the same elements are equal. */
  lemma {:induction false} SortedUnique(a: seq<Dep>, b: seq<Dep>)
    requires SortedByName(a) && SortedByName(b)
    requires multiset(a) == multiset(b)
    ensures a == b
  {
    if |a| > 0 && |b| > 0 {
      SortedSameHead(a, b);
      assert a == [a[0]] + a[1..] && b == [b[0]] + b[1..];
      assert multiset(a[1..]) == multiset(a) - multiset{a[0]};
      assert multiset(b[1..]) == multiset(b) - multiset{b[0]};
      assert SortedByName(a[1..]) && SortedByName(b[1..]);
      SortedUnique(a[1..], b[1..]);
    }
  }

  // ----- the collector -----

  /** The value of each key of `order`, in that order: the values of `deps` in key insertion order. */
  function ValuesInOrder(order: seq<string>, deps: map<string, Dep>): (r: seq<Dep>)
    requires forall i :: 0 <= i < |order| ==> order[i] in deps
    ensures |r| == |order|
    ensures forall i :: 0 <= i < |order| ==> r[i] == deps[order[i]]
  {
    if |order| == 0 then [] else [deps[order[0]]] + ValuesInOrder(order[1..], deps)
  }

  /**
    The `deps` object of the checker. The object keeps its keys in insertion
    order, and listing its values follows that order; `order` records it.
   */
  class Collector {
    const ignore: Option<seq<string>>
    var deps: map<string, Dep>
    var order: seq<string>
    ghost var lines: seq<string>

    /**
      Each key is its value's artifact name, the keys are those of the kept
      coordinates of the lines read so far, and `order` lists each key once.
     */
    ghost predicate Valid()
      reads this
    {
      (forall k :: k in deps ==> ArtifactName(deps[k]) == k && WellFormedDep(deps[k]))
      && deps.Keys == KeptNames(ignore, lines)
      && (forall i :: 0 <= i < |order| ==> order[i] in deps)
      && (forall k :: k in deps ==> k in order)
      && (forall i, j :: 0 <= i < j < |order| ==> order[i] != order[j])
    }

    /** The initial state: the ignore list parsed from the arguments, and no coordinates collected. */
    constructor (args: seq<string>)
      ensures Valid()
      ensures ignore == IgnorePackages(args)
      ensures deps == map[] && order == [] && lines == []
    {
      ignore := IgnorePackages(args);
      deps := map[];
      order := [];
      lines := [];
    }

    /** The line handler: store a kept coordinate under its name. */
    method FeedLine(line: string)
      requires Valid()
      modifies this
      ensures Valid()
      ensures lines == old(lines) + [line]
      ensures match Kept(ignore, line)
        case Some(d) =>
          && deps == old(deps)[ArtifactName(d) := d]
          && order == if ArtifactName(d) in old(deps) then old(order) else old(order) + [ArtifactName(d)]
        case None => deps == old(deps) && order == old(order)
    {
      var kept := Kept(ignore, line);
      KeptNamesStep(ignore, lines, line);
      lines := lines + [line];
      if kept.Some? {
        var d := kept.value;
        var name := ArtifactName(d);
        ExtractWellFormed(line);
        if name !in deps {
          order := order + [name];
        }
        deps := deps[name := d];
      }
    }

    /**
      The close handler up to the sort: the values of `deps`,
      strictly ascending by artifact name, each once.
     */
    method Finish() returns (depsArray: seq<Dep>)
      requires Valid()
      ensures SortedByName(depsArray)
      ensures multiset(depsArray) == multiset(ValuesInOrder(order, deps))
      ensures |depsArray| == |order|
      ensures forall d :: d in depsArray <==> d in deps.Values
    {
      var values := ValuesInOrder(order, deps);
      forall i, j | 0 <= i < j < |values| ensures ArtifactName(values[i]) != ArtifactName(values[j]) {
        assert order[i] != order[j];
      }
      depsArray := SortByName(values);
      assert |depsArray| == |multiset(depsArray)| == |values|;
      forall d ensures d in depsArray <==> d in deps.Values {
        assert d in depsArray <==> d in multiset(values);
        if d in deps.Values {
          var k :| k in deps && deps[k] == d;
          var i :| 0 <= i < |order| && order[i] == k;
          assert values[i] == d;
        }
      }
    }
  }
}

/**
  The line classifier shared by both scripts: the regular expression

    INFO]([\s\\+\\\-|]*)([\w.-]+):([\w.-]+):([\w.-]+):([\w.-]+):?(\w+)?$

  that picks a dependency coordinate out of a `dependency:tree` report line.
  Only this one pattern is modelled, with the semantics of a backtracking
  JavaScript matcher: the leftmost `INFO]` from which the rest matches, the
  greedy prefix run given back one character at a time, each field the
  longest run of field characters.
 */
module Matcher {
  import opened Wrappers

  /** One matched coordinate: group 2 to 5 of the pattern and the optional group 6. */
  datatype Coord = Coord(
    groupId: string,
    artifactId: string,
    packaging: string,
    version: string,
    scope: Option<string>)

  /** `\w` */
  predicate IsWordChar(c: char) {
    ('a' <= c <= 'z') || ('A' <= c <= 'Z') || ('0' <= c <= '9') || c == '_'
  }

  /** `[\w.-]` */
  predicate IsFieldChar(c: char) {
    IsWordChar(c) || c == '.' || c == '-'
  }

  /** `\s`: ECMAScript white space and line terminators. */
  predicate IsJsSpace(c: char) {
    c == '\t' || c == '\n' || c == '\U{000B}' || c == '\U{000C}' || c == '\r' || c == ' '
    || c == '\U{00A0}' || c == '\U{1680}' || ('\U{2000}' <= c <= '\U{200A}')
    || c == '\U{2028}' || c == '\U{2029}' || c == '\U{202F}' || c == '\U{205F}'
    || c == '\U{3000}' || c == '\U{FEFF}'
  }

  /** `[\s\\+\\\-|]`: white space and the tree-drawing glyphs. */
  predicate IsPrefixChar(c: char) {
    IsJsSpace(c) || c == '\\' || c == '+' || c == '-' || c == '|'
  }

  predicate AllWordChars(s: string) {
    forall i :: 0 <= i < |s| ==> IsWordChar(s[i])
  }

  predicate AllPrefixChars(s: string) {
    forall i :: 0 <= i < |s| ==> IsPrefixChar(s[i])
  }

  /** `[\w.-]+` */
  predicate IsField(s: string) {
    |s| > 0 && forall i :: 0 <= i < |s| ==> IsFieldChar(s[i])
  }

  /** A coordinate the pattern can produce: four fields and a `\w+` scope if any. */
  predicate WellFormed(c: Coord) {
    IsField(c.groupId) && IsField(c.artifactId) && IsField(c.packaging) && IsField(c.version)
    && (c.scope.Some? ==> |c.scope.value| > 0 && AllWordChars(c.scope.value))
  }

  /** `INFO]` begins at `i`. */
  predicate MarkerAt(line: string, i: nat) {
    i + 5 <= |line|
    && line[i] == 'I' && line[i + 1] == 'N' && line[i + 2] == 'F' && line[i + 3] == 'O' && line[i + 4] == ']'
  }

  /** Length of the longest run of field characters at the start of `s`. */
  function FieldRun(s: string): (n: nat)
    ensures n <= |s|
  {
    if |s| == 0 || !IsFieldChar(s[0]) then 0 else 1 + FieldRun(s[1..])
  }

  /** `FieldRun` is the longest run: every character in it is a field character, the next is not. */
  lemma {:induction false} FieldRunMaximal(s: string)
    ensures forall i :: 0 <= i < FieldRun(s) ==> IsFieldChar(s[i])
    ensures FieldRun(s) < |s| ==> !IsFieldChar(s[FieldRun(s)])
  {
    if |s| > 0 && IsFieldChar(s[0]) {
      FieldRunMaximal(s[1..]);
    }
  }

  /** Length of the longest run of prefix characters starting at `line[i]`. */
  function PrefixRun(line: string, i: nat): (n: nat)
    requires i <= |line|
    ensures i + n <= |line|
    decreases |line| - i
  {
    if i == |line| || !IsPrefixChar(line[i]) then 0 else 1 + PrefixRun(line, i + 1)
  }

  /** Every character of `line[lo..hi]` is white space or a glyph. */
  predicate PrefixCharsBetween(line: string, lo: nat, hi: nat) {
    forall j :: lo <= j < hi && j < |line| ==> IsPrefixChar(line[j])
  }

  /** `PrefixRun` is the longest run of white space and glyph characters. */
  lemma {:induction false} PrefixRunMaximal(line: string, i: nat)
    requires i <= |line|
    ensures PrefixCharsBetween(line, i, i + PrefixRun(line, i))
    ensures i + PrefixRun(line, i) < |line| ==> !IsPrefixChar(line[i + PrefixRun(line, i)])
    decreases |line| - i
  {
    if i < |line| && IsPrefixChar(line[i]) {
      PrefixRunMaximal(line, i + 1);
    }
  }

  /** `([\w.-]+):` at the start of `s`: the field and what follows the colon. */
  function ParseField(s: string): Option<(string, string)> {
    var n := FieldRun(s);
    if 0 < n < |s| && s[n] == ':' then Some((s[..n], s[n + 1..])) else None
  }

  /** A parsed field is a `[\w.-]+` run, and the input is the field, a colon and the rest. */
  lemma ParseFieldSound(s: string)
    requires ParseField(s).Some?
    ensures IsField(ParseField(s).value.0)
    ensures s == ParseField(s).value.0 + ([':'] + ParseField(s).value.1)
  {
    var n := FieldRun(s);
    FieldRunMaximal(s);
    assert s == s[..n] + ([':'] + s[n + 1..]);
  }

  /** `([\w.-]+):?(\w+)?$`: the version field and the optional scope. */
  function ParseLast(s: string): Option<(string, Option<string>)> {
    var n := FieldRun(s);
    if n == 0 then None
    else if n == |s| then Some((s, None))
    else if s[n] == ':' && AllWordChars(s[n + 1..]) then
      Some((s[..n], if n + 1 == |s| then None else Some(s[n + 1..])))
    else None
  }

  /** The version is a field; the input is the version, then nothing, a bare colon, or a colon and a `\w+` scope. */
  lemma ParseLastSound(s: string)
    requires ParseLast(s).Some?
    ensures var r := ParseLast(s).value;
      && IsField(r.0)
      && (r.1.None? ==> s == r.0 + [] || s == r.0 + [':'])
      && (r.1.Some? ==> |r.1.value| > 0 && AllWordChars(r.1.value) && s == r.0 + ([':'] + r.1.value))
  {
    var n := FieldRun(s);
    FieldRunMaximal(s);
    if n == |s| {
      assert s == s + [];
    } else {
      assert s == s[..n] + ([':'] + s[n + 1..]);
    }
  }

  /** The four fields and the scope, which must reach the end of `s`. */
  function ParseCoord(s: string): Option<Coord> {
    var f1 :- ParseField(s);
    var f2 :- ParseField(f1.1);
    var f3 :- ParseField(f2.1);
    var last :- ParseLast(f3.1);
    Some(Coord(f1.0, f2.0, f3.0, last.0, last.1))
  }

  /** What `ParseCoord` accepts is exactly the text of a well-formed coordinate. */
  lemma ParseCoordSound(s: string, c: Coord)
    requires ParseCoord(s) == Some(c)
    ensures WellFormed(c) && Spells(s, c)
  {
    var f1 := ParseField(s).value;
    ParseFieldSound(s);
    var f2 := ParseField(f1.1).value;
    ParseFieldSound(f1.1);
    var f3 := ParseField(f2.1).value;
    ParseFieldSound(f2.1);
    var last := ParseLast(f3.1).value;
    ParseLastSound(f3.1);
    assert s == Layout(c, f3.1[|last.0|..]);
  }

  /** `g:a:p:v` followed by `tail`. */
  function Layout(c: Coord, tail: string): string {
    c.groupId + ([':'] + (c.artifactId + ([':'] + (c.packaging + ([':'] + (c.version + tail))))))
  }

  /** `g:a:p:v`, followed by `:s` when there is a scope. */
  function Text(c: Coord): string {
    Layout(c, if c.scope.Some? then [':'] + c.scope.value else [])
  }

  /** The texts the pattern reads as `c`: a bare trailing colon reads as no scope. */
  predicate Spells(s: string, c: Coord) {
    s == Text(c) || (c.scope.None? && s == Layout(c, [':']))
  }

  /** A line `line[..i] + "INFO]" + prefix + g:a:p:v[:s]`. */
  predicate SplitsAt(line: string, i: nat, level: nat, c: Coord) {
    MarkerAt(line, i) && i + 5 + level <= |line|
    && PrefixCharsBetween(line, i + 5, i + 5 + level)
    && Spells(line[i + 5 + level..], c)
  }

  /** The coordinate that the rest of the line from `j` on spells, if any. */
  function ParseAfter(line: string, j: nat): Option<Coord> {
    if j <= |line| then ParseCoord(line[j..]) else None
  }

  /**
    The first result among `f(k)`, `f(k - 1)`, ..., `f(0)`, with its
    position: a greedy run given back one character at a time.
   */
  function Downward<T>(f: nat -> Option<T>, k: nat): Option<(nat, T)>
    decreases k
  {
    match f(k)
    case Some(v) => Some((k, v))
    case None => if k == 0 then None else Downward(f, k - 1)
  }

  /** `Downward` stops at the largest position where `f` gives a result, and finds none only when there is none. */
  lemma {:induction false} DownwardSpec<T>(f: nat -> Option<T>, k: nat)
    ensures Downward(f, k).Some? ==>
      var r := Downward(f, k).value;
      r.0 <= k && f(r.0) == Some(r.1) && forall j :: r.0 < j <= k ==> f(j).None?
    ensures Downward(f, k).None? ==> forall j :: 0 <= j <= k ==> f(j).None?
    decreases k
  {
    if f(k).None? && k > 0 {
      DownwardSpec(f, k - 1);
    }
  }

  /**
    The greedy prefix run after the marker, given back one character at a
    time: the longest prefix of length at most `k` after which the fields match.
   */
  function TryPrefixes(line: string, i: nat, k: nat): Option<(nat, Coord)> {
    Downward(AttemptAfter(line, i), k)
  }

  /** The fields tried after a prefix of length `j` that starts at `i`. */
  function AttemptAfter(line: string, i: nat): nat -> Option<Coord> {
    (j: nat) => ParseAfter(line, i + j)
  }

  /** Backtracking returns a prefix no longer than `k` after which the rest spells a well-formed coordinate. */
  lemma TryPrefixesSound(line: string, i: nat, k: nat)
    requires TryPrefixes(line, i, k).Some?
    ensures
      var r := TryPrefixes(line, i, k).value;
      r.0 <= k && i + r.0 <= |line| && WellFormed(r.1) && Spells(line[i + r.0..], r.1)
  {
    DownwardSpec(AttemptAfter(line, i), k);
    var r := TryPrefixes(line, i, k).value;
    assert AttemptAfter(line, i)(r.0) == ParseAfter(line, i + r.0);
    ParseCoordSound(line[i + r.0..], r.1);
  }

  /**
    Backtracking gives back one character at a time: after no longer prefix
    of length at most `k` do the fields parse, and without a result they
    parse after none.
   */
  lemma TryPrefixesLongest(line: string, i: nat, k: nat)
    ensures TryPrefixes(line, i, k).Some? ==>
        forall p: nat :: i + TryPrefixes(line, i, k).value.0 < p <= i + k ==> ParseAfter(line, p).None?
    ensures TryPrefixes(line, i, k).None? ==> forall p: nat :: i <= p <= i + k ==> ParseAfter(line, p).None?
  {
    DownwardSpec(AttemptAfter(line, i), k);
    forall p: nat | i <= p <= i + k ensures ParseAfter(line, p) == AttemptAfter(line, i)(p - i) {
    }
  }

  /** The match of everything after an `INFO]` that ends just before `i`. */
  function MatchAfterMarker(line: string, i: nat): Option<(nat, Coord)>
    requires i <= |line|
  {
    TryPrefixes(line, i, PrefixRun(line, i))
  }

  /** A match after the marker is a run of white space and glyphs, then a well-formed coordinate's text. */
  lemma AfterMarkerSound(line: string, i: nat)
    requires i <= |line| && MatchAfterMarker(line, i).Some?
    ensures
      var r := MatchAfterMarker(line, i).value;
      i + r.0 <= |line| && PrefixCharsBetween(line, i, i + r.0)
      && WellFormed(r.1) && Spells(line[i + r.0..], r.1)
  {
    PrefixRunMaximal(line, i);
    TryPrefixesSound(line, i, PrefixRun(line, i));
  }

  /** The first result among `f(s)`, `f(s + 1)`, ..., `f(n - 1)`. */
  function Leftmost<T>(f: nat -> Option<T>, s: nat, n: nat): Option<T>
    decreases n - s
  {
    if s >= n then None else if f(s).Some? then f(s) else Leftmost(f, s + 1, n)
  }

  /** Where `Leftmost` finds its result: the first position at which `f` gives one. */
  function LeftmostIndex<T>(f: nat -> Option<T>, s: nat, n: nat): (i: nat)
    requires Leftmost(f, s, n).Some?
    ensures s <= i < n && f(i) == Leftmost(f, s, n)
    ensures forall t :: s <= t < i ==> f(t).None?
    decreases n - s
  {
    if f(s).Some? then s else LeftmostIndex(f, s + 1, n)
  }

  /** The match of the pattern whose `INFO]` starts at `s`, if any. */
  function MatchAt(line: string, s: nat): Option<(nat, Coord)> {
    if MarkerAt(line, s) then MatchAfterMarker(line, s + 5) else None
  }

  /** The leftmost start position at or after `s` from which the pattern matches. */
  function MatchFrom(line: string, s: nat): Option<(nat, Coord)> {
    Leftmost(t => MatchAt(line, t), s, |line|)
  }

  /** The match of a whole line: the level (the length of group 1) and the coordinate, or no match. */
  function Match(line: string): Option<(nat, Coord)> {
    MatchFrom(line, 0)
  }

  /** Where the search succeeds: the `INFO]` after which the rest of the line matched. */
  function MatchIndex(line: string, s: nat): (i: nat)
    requires MatchFrom(line, s).Some?
    ensures i + 5 <= |line| && MarkerAt(line, i)
    ensures MatchAfterMarker(line, i + 5) == MatchFrom(line, s)
  {
    LeftmostIndex(t => MatchAt(line, t), s, |line|)
  }

  lemma MatchFromSound(line: string, s: nat)
    requires MatchFrom(line, s).Some?
    ensures WellFormed(MatchFrom(line, s).value.1)
    ensures exists i: nat :: SplitsAt(line, i, MatchFrom(line, s).value.0, MatchFrom(line, s).value.1)
  {
    var i := MatchIndex(line, s);
    var r := MatchFrom(line, s).value;
    AfterMarkerSound(line, i + 5);
    assert SplitsAt(line, i, r.0, r.1);
  }

  /**
    Every match is all-or-nothing: the matched line is some text, an `INFO]`,
    a prefix of exactly `level` white space or glyph characters, and the
    well-formed coordinate's own text.
   */
  lemma MatchSound(line: string)
    requires Match(line).Some?
    ensures WellFormed(Match(line).value.1)
    ensures exists i: nat :: SplitsAt(line, i, Match(line).value.0, Match(line).value.1)
  {
    MatchFromSound(line, 0);
  }

  lemma {:induction false} FieldRunConcat(x: string, y: string)
    requires forall i :: 0 <= i < |x| ==> IsFieldChar(x[i])
    requires |y| == 0 || !IsFieldChar(y[0])
    ensures FieldRun(x + y) == |x|
  {
    if |x| > 0 {
      assert (x + y)[1..] == x[1..] + y;
      FieldRunConcat(x[1..], y);
    } else {
      assert x + y == y;
    }
  }

  lemma ParseFieldConcat(f: string, rest: string)
    requires IsField(f)
    ensures ParseField(f + ([':'] + rest)) == Some((f, rest))
  {
    FieldRunConcat(f, [':'] + rest);
    var s := f + ([':'] + rest);
    assert s[..|f|] == f && s[|f| + 1..] == rest;
  }

  /** The version followed by nothing, by a bare `:`, or by `:` and a scope parses as the version and that scope. */
  lemma ParseLastConcat(v: string, scope: Option<string>, tail: string)
    requires IsField(v)
    requires scope.Some? ==> |scope.value| > 0 && AllWordChars(scope.value) && tail == [':'] + scope.value
    requires scope.None? ==> tail == [] || tail == [':']
    ensures ParseLast(v + tail) == Some((v, scope))
  {
    FieldRunConcat(v, tail);
    var s := v + tail;
    if tail == [] {
      assert s == v;
    } else {
      assert s[..|v|] == v && s[|v| + 1..] == tail[1..];
    }
  }

  /**
    Every text the pattern reads as a well-formed coordinate, `g:a:p:v`,
    `g:a:p:v:s` or `g:a:p:v:` (no scope), parses back to it.
   */
  lemma ParseCoordText(t: string, c: Coord)
    requires WellFormed(c) && Spells(t, c)
    ensures ParseCoord(t) == Some(c)
  {
    var tail: string := if c.scope.Some? then [':'] + c.scope.value else if t == Text(c) then [] else [':'];
    assert t == Layout(c, tail);
    ParseLastConcat(c.version, c.scope, tail);
    var r3 := c.version + tail;
    ParseFieldConcat(c.packaging, r3);
    var r2 := c.packaging + ([':'] + r3);
    ParseFieldConcat(c.artifactId, r2);
    var r1 := c.artifactId + ([':'] + r2);
    ParseFieldConcat(c.groupId, r1);
    assert t == c.groupId + ([':'] + r1);
  }

  lemma {:induction false} PrefixRunExact(line: string, i: nat, n: nat)
    requires i + n < |line|
    requires PrefixCharsBetween(line, i, i + n) && !IsPrefixChar(line[i + n])
    ensures PrefixRun(line, i) == n
    decreases n
  {
    if n > 0 {
      PrefixRunExact(line, i + 1, n - 1);
    }
  }

  /** Where no match starts, the search moves on. */
  lemma MatchFromStep(line: string, s: nat)
    requires s < |line| && MatchAt(line, s).None?
    ensures MatchFrom(line, s) == MatchFrom(line, s + 1)
  {
  }

  /** The characters a coordinate's text is made of: field characters and `:`. */
  predicate AllCoordChars(s: string) {
    forall k :: 0 <= k < |s| ==> IsFieldChar(s[k]) || s[k] == ':'
  }

  lemma CoordCharsConcat(a: string, b: string)
    requires AllCoordChars(a) && AllCoordChars(b)
    ensures AllCoordChars(a + b)
  {
    forall k | 0 <= k < |a + b| ensures IsFieldChar((a + b)[k]) || (a + b)[k] == ':' {
      if k < |a| {
        assert (a + b)[k] == a[k];
      } else {
        assert (a + b)[k] == b[k - |a|];
      }
    }
  }

  /** The text a well-formed coordinate is spelled by holds only field characters and colons. */
  lemma SpellsCoordChars(s: string, c: Coord)
    requires WellFormed(c) && Spells(s, c)
    ensures AllCoordChars(s)
  {
    var colon: string := [':'];
    var tail: string := if s == Text(c) then (if c.scope.Some? then colon + c.scope.value else []) else colon;
    if c.scope.Some? && s == Text(c) {
      CoordCharsConcat(colon, c.scope.value);
    }
    CoordCharsConcat(c.version, tail);
    CoordCharsConcat(colon, c.version + tail);
    CoordCharsConcat(c.packaging, colon + (c.version + tail));
    CoordCharsConcat(colon, c.packaging + (colon + (c.version + tail)));
    CoordCharsConcat(c.artifactId, colon + (c.packaging + (colon + (c.version + tail))));
    CoordCharsConcat(colon, c.artifactId + (colon + (c.packaging + (colon + (c.version + tail)))));
    CoordCharsConcat(c.groupId, colon + (c.artifactId + (colon + (c.packaging + (colon + (c.version + tail))))));
    assert s == Layout(c, tail);
  }

  /** Everything from a match after a marker to the end of the line is prefix, field or `:` characters. */
  lemma AfterMarkerChars(line: string, i: nat, q: nat)
    requires i <= q < |line| && MatchAfterMarker(line, i).Some?
    ensures IsPrefixChar(line[q]) || IsFieldChar(line[q]) || line[q] == ':'
  {
    AfterMarkerSound(line, i);
    var r := MatchAfterMarker(line, i).value;
    if q >= i + r.0 {
      var t := line[i + r.0..];
      SpellsCoordChars(t, r.1);
      assert line[q] == t[q - (i + r.0)];
    }
  }

  /**
    No match starts before an `INFO]` at `q`: it would have to run to the end
    of the line through the `]` at `q + 4`, which is neither a prefix
    character, a field character nor `:`.
   */
  lemma NoMatchBefore(line: string, t: nat, q: nat)
    requires t < q && q + 4 < |line| && line[q + 4] == ']'
    ensures MatchAt(line, t).None?
  {
    if MarkerAt(line, t) && MatchAfterMarker(line, t + 5).Some? {
      AfterMarkerChars(line, t + 5, q + 4);
      assert false;
    }
  }

  /** A function that does not change from one argument to the next is constant on the range. */
  lemma {:induction false} ConstantOn<T>(f: nat -> T, lo: nat, hi: nat)
    requires lo <= hi
    requires forall t :: lo <= t < hi ==> f(t) == f(t + 1)
    ensures f(lo) == f(hi)
    decreases hi - lo
  {
    if lo < hi {
      ConstantOn(f, lo + 1, hi);
    }
  }

  /** The search passes over everything before the last `INFO]` of a line. */
  lemma MatchFromSkips(line: string, s: nat, q: nat)
    requires s <= q && q + 4 < |line| && line[q + 4] == ']'
    ensures MatchFrom(line, s) == MatchFrom(line, q)
  {
    forall t | s <= t < q ensures MatchFrom(line, t) == MatchFrom(line, t + 1) {
      NoMatchBefore(line, t, q);
      MatchFromStep(line, t);
    }
    ConstantOn(t => MatchFrom(line, t), s, q);
  }

  /** At an `INFO]` after which the pattern matches, the search stops. */
  lemma MatchFromMarker(line: string, m: nat, r: (nat, Coord))
    requires MarkerAt(line, m) && MatchAfterMarker(line, m + 5) == Some(r)
    ensures MatchFrom(line, m) == Some(r)
  {
  }

  /**
    After the marker, a maximal prefix run of `n` characters followed by a
    coordinate's fields is used whole.
   */
  lemma AfterMarkerExact(line: string, i: nat, n: nat, t: string, c: Coord)
    requires i + n < |line|
    requires PrefixCharsBetween(line, i, i + n) && !IsPrefixChar(line[i + n])
    requires line[i + n..] == t && ParseCoord(t) == Some(c)
    ensures MatchAfterMarker(line, i) == Some((n, c))
  {
    PrefixRunExact(line, i, n);
    assert AttemptAfter(line, i)(n) == ParseAfter(line, i + n) == Some(c);
  }

  /** A field character other than `-` cannot continue the prefix. */
  lemma FieldStartNotPrefix(ch: char)
    requires IsFieldChar(ch) && ch != '-'
    ensures !IsPrefixChar(ch)
  {
  }

  /** The pieces of `pre + "INFO]" + prefix + t` sit where they should. */
  lemma LineLayout(pre: string, prefix: string, t: string)
    requires AllPrefixChars(prefix) && |t| > 0
    ensures
      var line := pre + "INFO]" + prefix + t;
      var i := |pre| + 5;
      && MarkerAt(line, |pre|)
      && i + |prefix| < |line|
      && PrefixCharsBetween(line, i, i + |prefix|)
      && line[i + |prefix|..] == t
      && line[i + |prefix|] == t[0]
      && (pre + "INFO]" + prefix + t) == pre + ("INFO]" + prefix + t)
  {
    var line := pre + "INFO]" + prefix + t;
    var i := |pre| + 5;
    forall j | i <= j < i + |prefix| ensures IsPrefixChar(line[j]) {
      assert line[j] == prefix[j - i];
    }
    assert line[i + |prefix|..] == t;
  }

  /**
    A line made of any text (which may hold other `INFO]`s), `INFO]`, a prefix
    of white space and glyphs, and a text `t` the pattern reads as a
    well-formed coordinate (`g:a:p:v`, `g:a:p:v:s`, or `g:a:p:v:` with no
    scope) whose group does not start with `-` (the greedy prefix can take
    that `-`) matches with the prefix length as level and exactly those
    fields.
   */
  lemma MatchWellFormedLine(pre: string, prefix: string, t: string, c: Coord)
    requires AllPrefixChars(prefix)
    requires WellFormed(c) && c.groupId[0] != '-' && Spells(t, c)
    ensures Match(pre + "INFO]" + prefix + t) == Some((|prefix|, c))
  {
    assert t[0] == c.groupId[0];
    LineLayout(pre, prefix, t);
    var line := pre + "INFO]" + prefix + t;
    var i := |pre| + 5;
    assert line[|pre| + 4] == ']';
    MatchFromSkips(line, 0, |pre|);
    ParseCoordText(t, c);
    FieldStartNotPrefix(c.groupId[0]);
    AfterMarkerExact(line, i, |prefix|, t, c);
    MatchFromMarker(line, |pre|, (|prefix|, c));
  }

  /** The bare trailing colon: `g:a:p:v:` reads as a coordinate without a scope. */
  lemma MatchBareColon(pre: string, prefix: string, c: Coord)
    requires AllPrefixChars(prefix)
    requires WellFormed(c) && c.groupId[0] != '-' && c.scope.None?
    ensures Match(pre + "INFO]" + prefix + Layout(c, [':'])) == Some((|prefix|, c))
  {
    MatchWellFormedLine(pre, prefix, Layout(c, [':']), c);
  }
}

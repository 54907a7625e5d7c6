/**
  `generateHTML(nodes, indent)`: the nested `<ul>`/`<li>` lines for a forest,
  with the text inserted verbatim (there is no HTML escaping). Its partner is
  `DecodeItem`, which reads a rendered `<li>` line back; the lemmas show that
  the `<li>` lines of a rendered forest decode to its coordinates in pre-order,
  each with its test mark.
 */
module Renderer {
  import opened Wrappers
  import opened Strings
  import opened Matcher
  import opened DepsTree

  /** A node is marked as a test dependency when it has a scope and that scope is `test`. */
  predicate IsTest(c: Coord) {
    c.scope == Some("test")
  }

  /** The node counts as having a scope when one is present and it is not the empty string. */
  predicate HasScope(c: Coord) {
    c.scope.Some? && c.scope.value != ""
  }

  function TestClass(c: Coord): string {
    if IsTest(c) then " class=\"test\"" else ""
  }

  function ScopeSpan(c: Coord): string {
    if HasScope(c) then ScopeOpen + (c.scope.value + "</span>") else ""
  }

  /** `https://mvnrepository.com/artifact/<group>/<artifact>/<version>` */
  function VersionUrl(c: Coord): string {
    ArtifactBase + c.groupId + "/" + c.artifactId + "/" + c.version
  }

  const ArtifactBase: string := "https://mvnrepository.com/artifact/"
  const BaseLinkOpen: string := "><a href=\"" + ArtifactBase
  const BaseLinkRest: string := "\" target=\"_blank\" class=\"base-artifact\">"
  const VersionLinkOpen: string := "</a>:<a href=\""
  const VersionLinkRest: string := "\" target=\"_blank\" class=\"specific-version\">"
  const ScopeOpen: string := "<span class=\"scope\">:"
  const PackagingOpen: string := "</a><span class=\"packaging\">:"

  /**
    The `<li>` element of one node, piece by piece in the order of the
    template. It is written right-nested so that it can be read back piece by
    piece.
   */
  function ItemMarkup(c: Coord): string {
    "<li" + (TestClass(c) + Links(c))
  }

  /** The two links of an item: to the artifact and to its version. */
  function Links(c: Coord): string {
    BaseLinkOpen + (c.groupId + ("/" + (c.artifactId + (BaseLinkRest + VersionLink(c)))))
  }

  /** The text of the artifact link, and the link to the version. */
  function VersionLink(c: Coord): string {
    c.groupId + ":" + c.artifactId
    + (VersionLinkOpen + (VersionUrl(c) + (VersionLinkRest + (c.version + Spans(c)))))
  }

  /** The packaging span, the scope span when there is a scope, and the end of the item. */
  function Spans(c: Coord): string {
    PackagingOpen + (c.packaging + ("</span>" + (ScopeSpan(c) + "</li>")))
  }

  /** The indentation, two more spaces, then the list-item markup of the coordinate. */
  function ItemLine(c: Coord, indent: string): string {
    indent + "  " + ItemMarkup(c)
  }

  /** The lines rendered for a forest at an indentation: nothing for an empty forest, else one `<ul>` level. */
  function RenderForest(nodes: seq<Node>, indent: string): (r: seq<string>)
    ensures r == [] <==> nodes == []
    decreases nodes, 1
  {
    if |nodes| == 0 then []
    else [indent + "<ul>"] + RenderItems(nodes, indent) + [indent + "</ul>"]
  }

  /** The body of the `for` loop of `generateHTML`, for every node in turn. */
  function RenderItems(nodes: seq<Node>, indent: string): seq<string>
    decreases nodes, 0
  {
    if |nodes| == 0 then []
    else
      [ItemLine(nodes[0].coord, indent)]
      + RenderForest(nodes[0].children, indent + "  ")
      + RenderItems(nodes[1..], indent)
  }

  // ----- reading a rendered line back -----

  /** What an item line says: the coordinate and whether it carries `class="test"`. */
  datatype Item = Item(coord: Coord, testClass: bool)

  predicate AllSpaces(s: string) {
    forall i :: 0 <= i < |s| ==> s[i] == ' '
  }

  function LeadingSpaces(s: string): (n: nat)
    ensures n <= |s|
  {
    if |s| == 0 || s[0] != ' ' then 0 else 1 + LeadingSpaces(s[1..])
  }

  /** `lit` begins `s`: what follows it. */
  function Expect(s: string, lit: string): Option<string> {
    if StartsWith(s, lit) then Some(s[|lit|..]) else None
  }

  /** The text before the first `ch` in `s`, and the rest from that `ch` on. */
  function Until(s: string, ch: char): Option<(string, string)> {
    if |s| == 0 then None
    else if s[0] == ch then Some(("", s))
    else
      var r :- Until(s[1..], ch);
      Some(([s[0]] + r.0, r.1))
  }

  /** Reads an `<li>` element back; `None` for anything else. */
  function DecodeMarkup(s0: string): Option<Item> {
    var s1 :- Expect(s0, "<li");
    var test := StartsWith(s1, " class=\"test\"");
    DecodeLinks(if test then s1[|" class=\"test\""|..] else s1, test)
  }

  function DecodeLinks(s0: string, test: bool): Option<Item> {
    var s1 :- Expect(s0, BaseLinkOpen);
    var g :- Until(s1, '/');
    var s2 :- Expect(g.1, "/");
    var a :- Until(s2, '"');
    var s3 :- Expect(a.1, BaseLinkRest);
    DecodeVersionLink(s3, g.0, a.0, test)
  }

  function DecodeVersionLink(s0: string, g: string, a: string, test: bool): Option<Item> {
    var name :- Until(s0, '<');
    var s1 :- Expect(name.1, VersionLinkOpen);
    var url :- Until(s1, '"');
    var s2 :- Expect(url.1, VersionLinkRest);
    var v :- Until(s2, '<');
    DecodeSpans(v.1, g, a, v.0, test)
  }

  function DecodeSpans(s0: string, g: string, a: string, v: string, test: bool): Option<Item> {
    var s1 :- Expect(s0, PackagingOpen);
    var p :- Until(s1, '<');
    var s2 :- Expect(p.1, "</span>");
    var scope :- DecodeScope(s2);
    Some(Item(Coord(g, a, p.0, v, scope), test))
  }

  /** The end of an item: `</li>`, or the scope span and then `</li>`. */
  function DecodeScope(s0: string): Option<Option<string>> {
    if s0 == "</li>" then Some(None)
    else
      var s1 :- Expect(s0, ScopeOpen);
      var sc :- Until(s1, '<');
      if sc.1 == "</span></li>" then Some(Some(sc.0)) else None
  }

  /** Reads an indented output line back as an item, if it is one. */
  function DecodeItem(line: string): Option<Item> {
    DecodeMarkup(line[LeadingSpaces(line)..])
  }

  /** The items of a sequence of output lines, in order; other lines are skipped. */
  function Items(lines: seq<string>): seq<Item> {
    if |lines| == 0 then []
    else
      (match DecodeItem(lines[0]) case Some(it) => [it] case None => [])
      + Items(lines[1..])
  }

  /** The items the renderer promises for a list of coordinates. */
  function Annotate(cs: seq<Coord>): seq<Item> {
    if |cs| == 0 then [] else [Item(cs[0], IsTest(cs[0]))] + Annotate(cs[1..])
  }

  // ----- lemmas -----

  lemma ExpectConcat(lit: string, rest: string)
    ensures Expect(lit + rest, lit) == Some(rest)
  {
    assert (lit + rest)[..|lit|] == lit;
  }

  lemma {:induction false} UntilConcat(x: string, rest: string, ch: char)
    requires ch !in x && |rest| > 0 && rest[0] == ch
    ensures Until(x + rest, ch) == Some((x, rest))
  {
    if |x| == 0 {
      assert x + rest == rest;
    } else {
      assert (x + rest)[1..] == x[1..] + rest;
      UntilConcat(x[1..], rest, ch);
      assert [x[0]] + x[1..] == x;
    }
  }

  lemma {:induction false} LeadingSpacesConcat(sp: string, rest: string)
    requires AllSpaces(sp) && |rest| > 0 && rest[0] != ' '
    ensures LeadingSpaces(sp + rest) == |sp| && (sp + rest)[|sp|..] == rest
  {
    if |sp| > 0 {
      assert (sp + rest)[1..] == sp[1..] + rest;
      LeadingSpacesConcat(sp[1..], rest);
    } else {
      assert sp + rest == rest;
    }
  }

  lemma FieldAvoids(s: string)
    requires IsField(s)
    ensures '/' !in s && '"' !in s && '<' !in s && ':' !in s && ' ' !in s
  {
    forall i | 0 <= i < |s|
      ensures s[i] != '/' && s[i] != '"' && s[i] != '<' && s[i] != ':' && s[i] != ' '
    {
      assert IsFieldChar(s[i]);
    }
  }

  lemma DecodeScopeOf(c: Coord)
    requires WellFormed(c)
    ensures DecodeScope(ScopeSpan(c) + "</li>") == Some(c.scope)
  {
    if c.scope.Some? {
      var s := c.scope.value;
      assert '<' !in s by {
        forall i | 0 <= i < |s| ensures s[i] != '<' {
          assert IsWordChar(s[i]);
        }
      }
      var tail := ScopeSpan(c) + "</li>";
      var r := s + "</span></li>";
      assert tail == ScopeOpen + r;
      assert tail != "</li>" by {
        assert ScopeOpen[1] == 's';
        assert tail[1] == 's';
      }
      ExpectConcat(ScopeOpen, r);
      UntilConcat(s, "</span></li>", '<');
    } else {
      assert ScopeSpan(c) + "</li>" == "</li>";
    }
  }

  lemma DecodeSpansOf(c: Coord, test: bool)
    requires WellFormed(c)
    ensures DecodeSpans(Spans(c), c.groupId, c.artifactId, c.version, test) == Some(Item(c, test))
  {
    FieldAvoids(c.packaging);
    var tail := ScopeSpan(c) + "</li>";
    var r := "</span>" + tail;
    ExpectConcat(PackagingOpen, c.packaging + r);
    UntilConcat(c.packaging, r, '<');
    ExpectConcat("</span>", tail);
    DecodeScopeOf(c);
  }

  lemma DecodeVersionLinkOf(c: Coord, test: bool)
    requires WellFormed(c)
    ensures DecodeVersionLink(VersionLink(c), c.groupId, c.artifactId, test) == Some(Item(c, test))
  {
    var g, a, v := c.groupId, c.artifactId, c.version;
    FieldAvoids(g); FieldAvoids(a); FieldAvoids(v);
    var r3 := v + Spans(c);
    var r2 := VersionLinkRest + r3;
    var r1 := VersionUrl(c) + r2;
    var r0 := VersionLinkOpen + r1;
    assert '<' !in g + ":" + a;
    assert VersionLinkOpen[0] == '<';
    UntilConcat(g + ":" + a, r0, '<');
    ExpectConcat(VersionLinkOpen, r1);
    assert '"' !in VersionUrl(c);
    assert VersionLinkRest[0] == '"';
    UntilConcat(VersionUrl(c), r2, '"');
    ExpectConcat(VersionLinkRest, r3);
    assert PackagingOpen[0] == '<';
    UntilConcat(v, Spans(c), '<');
    DecodeSpansOf(c, test);
  }

  lemma DecodeLinksOf(c: Coord, test: bool)
    requires WellFormed(c)
    ensures DecodeLinks(Links(c), test) == Some(Item(c, test))
  {
    var g, a := c.groupId, c.artifactId;
    FieldAvoids(g); FieldAvoids(a);
    var r1 := BaseLinkRest + VersionLink(c);
    var r0 := a + r1;
    var q1 := "/" + r0;
    ExpectConcat(BaseLinkOpen, g + q1);
    UntilConcat(g, q1, '/');
    ExpectConcat("/", r0);
    assert BaseLinkRest[0] == '"';
    UntilConcat(a, r1, '"');
    ExpectConcat(BaseLinkRest, VersionLink(c));
    DecodeVersionLinkOf(c, test);
  }

  lemma LinksStart(c: Coord)
    ensures |Links(c)| > 0 && Links(c)[0] == '>'
  {
    assert BaseLinkOpen[0] == '>';
  }

  /** The test mark is read off the front of whatever follows `<li`. */
  lemma DecodeMarkupTestMark(links: string, test: bool)
    requires |links| > 0 && links[0] == '>'
    ensures DecodeMarkup("<li" + ((if test then " class=\"test\"" else "") + links)) == DecodeLinks(links, test)
  {
    var mark := if test then " class=\"test\"" else "";
    ExpectConcat("<li", mark + links);
    if test {
      ExpectConcat(mark, links);
    } else {
      assert mark + links == links;
      assert !StartsWith(links, " class=\"test\"") by {
        assert links[0] != ' ';
      }
    }
  }

  /** Reading back the `<li>` element of a well-formed coordinate gives it and its test mark. */
  lemma DecodeItemMarkup(c: Coord)
    requires WellFormed(c)
    ensures DecodeMarkup(ItemMarkup(c)) == Some(Item(c, IsTest(c)))
  {
    LinksStart(c);
    DecodeMarkupTestMark(Links(c), IsTest(c));
    DecodeLinksOf(c, IsTest(c));
  }

  /** An item line, at any all-space indentation, decodes to its coordinate and test mark. */
  lemma DecodeItemLine(c: Coord, indent: string)
    requires WellFormed(c) && AllSpaces(indent)
    ensures DecodeItem(ItemLine(c, indent)) == Some(Item(c, IsTest(c)))
  {
    var m := ItemMarkup(c);
    assert m[0] == '<';
    assert AllSpaces(indent + "  ");
    LeadingSpacesConcat(indent + "  ", m);
    DecodeItemMarkup(c);
  }

  /** A line whose text starts with a tag other than `<li` is not an item. */
  lemma OtherTagIsNotItem(indent: string, s: string)
    requires AllSpaces(indent)
    requires |s| >= 2 && s[0] == '<' && s[1] != 'l'
    ensures DecodeItem(indent + s) == None
  {
    LeadingSpacesConcat(indent, s);
    assert (indent + s)[|indent|..] == s;
    assert !StartsWith(s, "<li") by {
      if |s| >= 3 {
        assert s[..3][1] == s[1];
      }
    }
  }

  /** The `<ul>` and `</ul>` lines are not items. */
  lemma ListLinesAreNotItems(indent: string)
    requires AllSpaces(indent)
    ensures DecodeItem(indent + "<ul>") == None
    ensures DecodeItem(indent + "</ul>") == None
  {
    OtherTagIsNotItem(indent, "<ul>");
    OtherTagIsNotItem(indent, "</ul>");
  }

  lemma {:induction false} ItemsConcat(a: seq<string>, b: seq<string>)
    ensures Items(a + b) == Items(a) + Items(b)
  {
    if |a| == 0 {
      assert a + b == b;
    } else {
      assert (a + b)[0] == a[0] && (a + b)[1..] == a[1..] + b;
      ItemsConcat(a[1..], b);
    }
  }

  lemma {:induction false} AnnotateConcat(a: seq<Coord>, b: seq<Coord>)
    ensures Annotate(a + b) == Annotate(a) + Annotate(b)
  {
    if |a| == 0 {
      assert a + b == b;
    } else {
      assert (a + b)[0] == a[0] && (a + b)[1..] == a[1..] + b;
      AnnotateConcat(a[1..], b);
    }
  }

  /**
    The `<li>` lines that `generateHTML` prints for a forest read back, in
    order, as the forest's coordinates in pre-order, each marked `class="test"`
    exactly when its scope is `test` (`RenderForestLines`: every other line
    it prints is a `<ul>` or `</ul>` line).
   */
  lemma {:induction false} RenderForestItems(f: seq<Node>, indent: string)
    requires AllSpaces(indent) && AllWellFormed(f)
    ensures Items(RenderForest(f, indent)) == Annotate(Preorder(f))
    decreases f, 1
  {
    if |f| > 0 {
      var body := RenderItems(f, indent);
      ListLinesAreNotItems(indent);
      RenderItemsItems(f, indent);
      ItemsConcat([indent + "<ul>"], body);
      ItemsConcat([indent + "<ul>"] + body, [indent + "</ul>"]);
      assert Items([indent + "<ul>"]) == [];
      assert Items([indent + "</ul>"]) == [];
    }
  }

  lemma {:induction false} RenderItemsItems(f: seq<Node>, indent: string)
    requires AllSpaces(indent) && AllWellFormed(f)
    ensures Items(RenderItems(f, indent)) == Annotate(Preorder(f))
    decreases f, 0
  {
    if |f| > 0 {
      var c := f[0].coord;
      var line := ItemLine(c, indent);
      var inner := RenderForest(f[0].children, indent + "  ");
      var others := RenderItems(f[1..], indent);
      assert Preorder(f) == [c] + Preorder(f[0].children) + Preorder(f[1..]);
      AllWellFormedParts(f);
      DecodeItemLine(c, indent);
      assert Items([line]) == [Item(c, IsTest(c))];
      RenderForestItems(f[0].children, indent + "  ");
      RenderItemsItems(f[1..], indent);
      ItemsConcat([line], inner);
      ItemsConcat([line] + inner, others);
      AnnotateConcat([c], Preorder(f[0].children));
      AnnotateConcat([c] + Preorder(f[0].children), Preorder(f[1..]));
    }
  }

  /** A `<ul>` or `</ul>` tag after an all-space indentation. */
  predicate ListLine(l: string) {
    || (|l| >= 4 && AllSpaces(l[..|l| - 4]) && l[|l| - 4..] == "<ul>")
    || (|l| >= 5 && AllSpaces(l[..|l| - 5]) && l[|l| - 5..] == "</ul>")
  }

  lemma ListLinesOf(indent: string)
    requires AllSpaces(indent)
    ensures ListLine(indent + "<ul>") && ListLine(indent + "</ul>")
  {
    assert (indent + "<ul>")[..|indent|] == indent && (indent + "<ul>")[|indent|..] == "<ul>";
    assert (indent + "</ul>")[..|indent|] == indent && (indent + "</ul>")[|indent|..] == "</ul>";
  }

  /** Every line rendered for a forest is an item line that reads back, or a `<ul>` or `</ul>` line. */
  lemma {:induction false} RenderForestLines(f: seq<Node>, indent: string)
    requires AllSpaces(indent) && AllWellFormed(f)
    ensures forall l :: l in RenderForest(f, indent) ==> ListLine(l) || DecodeItem(l).Some?
    decreases f, 1
  {
    if |f| > 0 {
      ListLinesOf(indent);
      RenderItemsLines(f, indent);
    }
  }

  lemma {:induction false} RenderItemsLines(f: seq<Node>, indent: string)
    requires AllSpaces(indent) && AllWellFormed(f)
    ensures forall l :: l in RenderItems(f, indent) ==> ListLine(l) || DecodeItem(l).Some?
    decreases f, 0
  {
    if |f| > 0 {
      AllWellFormedParts(f);
      DecodeItemLine(f[0].coord, indent);
      RenderForestLines(f[0].children, indent + "  ");
      RenderItemsLines(f[1..], indent);
    }
  }

  lemma {:induction false} AnnotateLength(cs: seq<Coord>)
    ensures |Annotate(cs)| == |cs|
  {
    if |cs| > 0 {
      AnnotateLength(cs[1..]);
    }
  }

  /** The rendering of a forest holds one line that reads back as an item per node. */
  lemma RenderItemCount(f: seq<Node>, indent: string)
    requires AllSpaces(indent) && AllWellFormed(f)
    ensures |Items(RenderForest(f, indent))| == |Preorder(f)|
  {
    RenderForestItems(f, indent);
    AnnotateLength(Preorder(f));
  }
}

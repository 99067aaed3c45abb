/** The parsed page as an element tree, with the few structural queries the
    scraper makes of it and lxml's `drop_tree`.

    Text follows lxml's layout: an element holds the text before its first child
    (`text`) and the text after its own end tag (`tail`); an absent text is the
    empty string. Attributes the scraper never reads are not kept. */
module Tree {
  import opened Strings

  datatype Node = Element(
    tag: seq<char>,
    id: seq<char>,
    cls: seq<char>,
    style: seq<char>,
    text: seq<char>,
    children: seq<Node>,
    tail: seq<char>)

  /** The element tests the scraper's XPath expressions apply. */
  datatype Selector =
    | Noise                 // style | script | sup | *[contains(@style,'display:none')]
    | Nickname              // *[contains(@class,'nickname')]
    | Marriage              // *[contains(@class,'marriage-display-inline')]
    | TagIs(name: seq<char>)
    | InfoboxTable          // table[contains(@class,'infobox')]
    | FirstHeading          // h1[@id='firstHeading']
    | ContentText           // div[@id='mw-content-text']

  /** XPath's whitespace: `normalize-space` strips only these four characters. */
  predicate IsXmlSpace(c: char) {
    c == ' ' || c == '\t' || c == '\r' || c == '\n'
  }

  /** Whether the element itself passes the test: only its tag and attributes
      are looked at. */
  predicate Matches(s: Selector, n: Node) {
    match s
    case Noise => n.tag == "style" || n.tag == "script" || n.tag == "sup" || Contains(n.style, "display:none")
    case Nickname => Contains(n.cls, "nickname")
    case Marriage => Contains(n.cls, "marriage-display-inline")
    case TagIs(name) => n.tag == name
    case InfoboxTable => n.tag == "table" && Contains(n.cls, "infobox")
    case FirstHeading => n.tag == "h1" && n.id == "firstHeading"
    case ContentText => n.tag == "div" && n.id == "mw-content-text"
  }

  /** `tr[th[contains(@class,'infobox-above')]]`: a row with a title header cell. */
  predicate IsTitleRow(n: Node) {
    n.tag == "tr" &&
    exists i :: 0 <= i < |n.children| && n.children[i].tag == "th" && Contains(n.children[i].cls, "infobox-above")
  }

  /** `normalize-space()` is not empty: some text inside is not XPath whitespace. */
  predicate NonBlank(n: Node) {
    var t := TextContent(n);
    exists i :: 0 <= i < |t| && !IsXmlSpace(t[i])
  }

  /** A text fragment as lxml yields it: an absent text yields nothing. */
  function Piece(t: seq<char>): (r: seq<seq<char>>)
    ensures forall i :: 0 <= i < |r| ==> |r[i]| > 0
  {
    if |t| == 0 then [] else [t]
  }

  /** `itertext()`: the element's text fragments in document order, its own tail
      excluded. */
  function IterText(n: Node): (r: seq<seq<char>>)
    ensures forall i :: 0 <= i < |r| ==> |r[i]| > 0
    decreases n
  {
    Piece(n.text) + IterTextIn(n.children)
  }

  function IterTextIn(kids: seq<Node>): (r: seq<seq<char>>)
    ensures forall i :: 0 <= i < |r| ==> |r[i]| > 0
    decreases kids
  {
    if |kids| == 0 then []
    else
      var last := kids[|kids| - 1];
      IterTextIn(kids[..|kids| - 1]) + IterText(last) + Piece(last.tail)
  }

  /** `text_content()`, the XPath string value: all text inside the element. */
  function TextContent(n: Node): seq<char>
    decreases n
  {
    n.text + TextIn(n.children)
  }

  function TextIn(kids: seq<Node>): seq<char>
    decreases kids
  {
    if |kids| == 0 then []
    else
      var last := kids[|kids| - 1];
      TextIn(kids[..|kids| - 1]) + TextContent(last) + last.tail
  }

  function Concat(pieces: seq<seq<char>>): seq<char> {
    if |pieces| == 0 then [] else Concat(pieces[..|pieces| - 1]) + pieces[|pieces| - 1]
  }

  /** The text children of an element (`h1/text()`): its text and its children's
      tails. */
  function DirectText(n: Node): (r: seq<seq<char>>)
    ensures forall i :: 0 <= i < |r| ==> |r[i]| > 0
  {
    Piece(n.text) + TailsIn(n.children)
  }

  function TailsIn(kids: seq<Node>): (r: seq<seq<char>>)
    ensures forall i :: 0 <= i < |r| ==> |r[i]| > 0
  {
    if |kids| == 0 then [] else TailsIn(kids[..|kids| - 1]) + Piece(kids[|kids| - 1].tail)
  }

  /** `./tag`: the children with the given tag, in order. */
  function ChildrenTagged(n: Node, tag: seq<char>): (r: seq<Node>)
    ensures forall i :: 0 <= i < |r| ==> r[i].tag == tag
  {
    Tagged(n.children, tag)
  }

  function Tagged(kids: seq<Node>, tag: seq<char>): (r: seq<Node>)
    ensures forall i :: 0 <= i < |r| ==> r[i].tag == tag
  {
    if |kids| == 0 then []
    else Tagged(kids[..|kids| - 1], tag) + (if kids[|kids| - 1].tag == tag then [kids[|kids| - 1]] else [])
  }

  /** A `.//` query from an element: every proper descendant the selector accepts,
      in document order. */
  function FindAll(n: Node, s: Selector): (r: seq<Node>)
    ensures forall i :: 0 <= i < |r| ==> Matches(s, r[i])
    decreases n
  {
    FindIn(n.children, s)
  }

  function FindIn(kids: seq<Node>, s: Selector): (r: seq<Node>)
    ensures forall i :: 0 <= i < |r| ==> Matches(s, r[i])
    decreases kids
  {
    if |kids| == 0 then []
    else
      var last := kids[|kids| - 1];
      FindIn(kids[..|kids| - 1], s) + (if Matches(s, last) then [last] else []) + FindAll(last, s)
  }

  /** A `//` query from the document: the root itself counts. */
  function FindInDocument(doc: Node, s: Selector): (r: seq<Node>)
    ensures forall i :: 0 <= i < |r| ==> Matches(s, r[i])
  {
    (if Matches(s, doc) then [doc] else []) + FindAll(doc, s)
  }

  /** The outermost title rows below an element, in document order. Their
      subtrees are disjoint, so the text nodes under any title row are the text
      nodes under these, each once. */
  function TitleRows(n: Node): (r: seq<Node>)
    ensures forall i :: 0 <= i < |r| ==> IsTitleRow(r[i])
    decreases n
  {
    TitleRowsIn(n.children)
  }

  function TitleRowsIn(kids: seq<Node>): (r: seq<Node>)
    ensures forall i :: 0 <= i < |r| ==> IsTitleRow(r[i])
    decreases kids
  {
    if |kids| == 0 then []
    else
      var last := kids[|kids| - 1];
      TitleRowsIn(kids[..|kids| - 1]) + (if IsTitleRow(last) then [last] else TitleRows(last))
  }

  /** The elements of `ns` that are not blank, in order. */
  function NonBlanks(ns: seq<Node>): (r: seq<Node>)
    ensures |r| <= |ns|
    ensures forall i :: 0 <= i < |r| ==> NonBlank(r[i])
  {
    if |ns| == 0 then []
    else NonBlanks(ns[..|ns| - 1]) + (if NonBlank(ns[|ns| - 1]) then [ns[|ns| - 1]] else [])
  }

  /** The text and children an element is left with once matching children are
      dropped. */
  datatype Pruned = Pruned(text: seq<char>, kids: seq<Node>)

  function AddTail(n: Node, t: seq<char>): Node {
    n.(tail := n.tail + t)
  }

  /** lxml's `drop_tree` applied, in document order, to every proper descendant
      the selector accepts. A dropped element takes its subtree with it; its tail
      is appended to the tail of the kept sibling before it, or to the parent's
      text when there is none. Inner matches of a dropped element are detached
      with it, so only the outermost matches change the tree. */
  function Prune(n: Node, s: Selector): (r: Node)
    ensures r.tag == n.tag && r.id == n.id && r.cls == n.cls && r.style == n.style && r.tail == n.tail
    decreases n
  {
    var p := PruneIn(n.text, n.children, s);
    n.(text := p.text, children := p.kids)
  }

  function PruneIn(text: seq<char>, kids: seq<Node>, s: Selector): (p: Pruned)
    ensures |p.kids| <= |kids|
    decreases kids
  {
    if |kids| == 0 then Pruned(text, [])
    else
      var p := PruneIn(text, kids[..|kids| - 1], s);
      var c := kids[|kids| - 1];
      if !Matches(s, c) then Pruned(p.text, p.kids + [Prune(c, s)])
      else if |p.kids| == 0 then Pruned(p.text + c.tail, [])
      else
        var m := |p.kids| - 1;
        Pruned(p.text, p.kids[..m] + [AddTail(p.kids[m], c.tail)])
  }

  /** Reference for the text that survives pruning: a dropped element's own text
      and subtree go, its tail stays. */
  function KeptText(n: Node, s: Selector): seq<char>
    decreases n
  {
    n.text + KeptIn(n.children, s)
  }

  function KeptIn(kids: seq<Node>, s: Selector): seq<char>
    decreases kids
  {
    if |kids| == 0 then []
    else
      var last := kids[|kids| - 1];
      KeptIn(kids[..|kids| - 1], s) + (if Matches(s, last) then [] else KeptText(last, s)) + last.tail
  }

  // ---------------------------------------------------------------------------

  lemma {:induction false} ConcatAppend(a: seq<seq<char>>, b: seq<seq<char>>)
    ensures Concat(a + b) == Concat(a) + Concat(b)
    decreases |b|
  {
    if |b| > 0 {
      var m := |b| - 1;
      assert (a + b)[..|a + b| - 1] == a + b[..m];
      ConcatAppend(a, b[..m]);
    } else {
      assert a + b == a;
    }
  }

  lemma {:induction false} ConcatPiece(t: seq<char>)
    ensures Concat(Piece(t)) == t
  {
    if |t| > 0 {
      assert Piece(t)[..0] == [];
    }
  }

  /** `text_content()` is the concatenation of the `itertext()` fragments. */
  lemma {:induction false} TextContentIsConcat(n: Node)
    ensures TextContent(n) == Concat(IterText(n))
    decreases n
  {
    TextInIsConcat(n.children);
    ConcatAppend(Piece(n.text), IterTextIn(n.children));
    ConcatPiece(n.text);
  }

  lemma {:induction false} TextInIsConcat(kids: seq<Node>)
    ensures TextIn(kids) == Concat(IterTextIn(kids))
    decreases kids
  {
    if |kids| > 0 {
      var init, last := kids[..|kids| - 1], kids[|kids| - 1];
      TextInIsConcat(init);
      TextContentIsConcat(last);
      ConcatAppend(IterTextIn(init) + IterText(last), Piece(last.tail));
      ConcatAppend(IterTextIn(init), IterText(last));
      ConcatPiece(last.tail);
    }
  }

  lemma {:induction false} AttributesDecide(s: Selector, a: Node, b: Node)
    requires a.tag == b.tag && a.id == b.id && a.cls == b.cls && a.style == b.style
    ensures Matches(s, a) == Matches(s, b)
  {
  }

  lemma {:induction false} FindInSnoc(ks: seq<Node>, k: Node, s: Selector)
    ensures FindIn(ks + [k], s) == FindIn(ks, s) + (if Matches(s, k) then [k] else []) + FindAll(k, s)
  {
    assert (ks + [k])[..|ks|] == ks;
  }

  lemma {:induction false} TextInSnoc(ks: seq<Node>, k: Node)
    ensures TextIn(ks + [k]) == TextIn(ks) + TextContent(k) + k.tail
  {
    assert (ks + [k])[..|ks|] == ks;
  }

  /** The children kept by one step of pruning, before and after the step. */
  lemma {:induction false} FreeAppend(ks: seq<Node>, k: Node, s: Selector)
    requires FindIn(ks, s) == [] && !Matches(s, k) && FindAll(k, s) == []
    ensures FindIn(ks + [k], s) == []
  {
    FindInSnoc(ks, k, s);
  }

  lemma {:induction false} FreeMerge(ks: seq<Node>, t: seq<char>, s: Selector)
    requires |ks| > 0 && FindIn(ks, s) == []
    ensures FindIn(ks[..|ks| - 1] + [AddTail(ks[|ks| - 1], t)], s) == []
  {
    var m := |ks| - 1;
    var k := ks[m];
    AttributesDecide(s, k, AddTail(k, t));
    FreeAppend(ks[..m], AddTail(k, t), s);
  }

  /** After pruning, nothing the selector accepts is left below the element. */
  lemma {:induction false} PruneLeavesNone(n: Node, s: Selector)
    ensures FindAll(Prune(n, s), s) == []
    decreases n
  {
    PruneInLeavesNone(n.text, n.children, s);
  }

  lemma {:induction false} PruneInLeavesNone(text: seq<char>, kids: seq<Node>, s: Selector)
    ensures FindIn(PruneIn(text, kids, s).kids, s) == []
    decreases kids
  {
    if |kids| > 0 {
      var p := PruneIn(text, kids[..|kids| - 1], s);
      var c := kids[|kids| - 1];
      PruneInLeavesNone(text, kids[..|kids| - 1], s);
      if !Matches(s, c) {
        PruneLeavesNone(c, s);
        AttributesDecide(s, c, Prune(c, s));
        FreeAppend(p.kids, Prune(c, s), s);
      } else if |p.kids| > 0 {
        FreeMerge(p.kids, c.tail, s);
      }
    }
  }

  /** Pruning an element that holds no match changes nothing, so pruning twice
      is pruning once. */
  lemma {:induction false} PruneFixesFree(n: Node, s: Selector)
    requires FindAll(n, s) == []
    ensures Prune(n, s) == n
    decreases n
  {
    PruneInFixesFree(n.text, n.children, s);
  }

  lemma {:induction false} PruneInFixesFree(text: seq<char>, kids: seq<Node>, s: Selector)
    requires FindIn(kids, s) == []
    ensures PruneIn(text, kids, s) == Pruned(text, kids)
    decreases kids
  {
    if |kids| > 0 {
      var init, c := kids[..|kids| - 1], kids[|kids| - 1];
      FreeParts(kids, s);
      PruneInFixesFree(text, init, s);
      PruneFixesFree(c, s);
      assert init + [c] == kids;
    }
  }

  lemma {:induction false} FreeParts(kids: seq<Node>, s: Selector)
    requires |kids| > 0 && FindIn(kids, s) == []
    ensures var last := kids[|kids| - 1];
      FindIn(kids[..|kids| - 1], s) == [] && !Matches(s, last) && FindAll(last, s) == []
  {
  }

  lemma {:induction false} PruneIdempotent(n: Node, s: Selector)
    ensures Prune(Prune(n, s), s) == Prune(n, s)
  {
    PruneLeavesNone(n, s);
    PruneFixesFree(Prune(n, s), s);
  }

  lemma {:induction false} TextMerge(ks: seq<Node>, t: seq<char>)
    requires |ks| > 0
    ensures TextIn(ks[..|ks| - 1] + [AddTail(ks[|ks| - 1], t)]) == TextIn(ks) + t
  {
    var m := |ks| - 1;
    var k := ks[m];
    TextInSnoc(ks[..m], AddTail(k, t));
    assert TextContent(AddTail(k, t)) == TextContent(k);
  }

  /** Dropping keeps tails: the text left after pruning is exactly the text
      outside the dropped subtrees. */
  lemma {:induction false} PruneKeepsText(n: Node, s: Selector)
    ensures TextContent(Prune(n, s)) == KeptText(n, s)
    decreases n
  {
    PruneInKeepsText(n.text, n.children, s);
  }

  /** What pruning a list of children keeps: the text in front plus the kept
      text of the children. */
  predicate KeepsText(text: seq<char>, kids: seq<Node>, s: Selector) {
    var p := PruneIn(text, kids, s);
    p.text + TextIn(p.kids) == text + KeptIn(kids, s)
  }

  lemma {:induction false} AppendBoth(a: seq<char>, b: seq<char>, c: seq<char>, d: seq<char>, x: seq<char>)
    requires a + b == c + d
    ensures a + (b + x) == c + (d + x)
  {
    assert a + (b + x) == (a + b) + x;
    assert c + (d + x) == (c + d) + x;
  }

  lemma {:induction false} KeepsTextKept(text: seq<char>, kids: seq<Node>, s: Selector)
    requires |kids| > 0 && !Matches(s, kids[|kids| - 1])
    requires KeepsText(text, kids[..|kids| - 1], s)
    requires TextContent(Prune(kids[|kids| - 1], s)) == KeptText(kids[|kids| - 1], s)
    ensures KeepsText(text, kids, s)
  {
    var init := kids[..|kids| - 1];
    var p := PruneIn(text, init, s);
    var c := kids[|kids| - 1];
    var x := KeptText(c, s) + c.tail;
    assert TextIn(p.kids + [Prune(c, s)]) == TextIn(p.kids) + x by {
      TextInSnoc(p.kids, Prune(c, s));
    }
    AppendBoth(p.text, TextIn(p.kids), text, KeptIn(init, s), x);
    assert PruneIn(text, kids, s) == Pruned(p.text, p.kids + [Prune(c, s)]);
    assert KeptIn(kids, s) == KeptIn(init, s) + x;
  }

  /** A dropped element whose tail joins the tail of the kept sibling before it. */
  lemma {:induction false} KeepsTextMerged(text: seq<char>, kids: seq<Node>, s: Selector)
    requires |kids| > 0 && Matches(s, kids[|kids| - 1])
    requires |PruneIn(text, kids[..|kids| - 1], s).kids| > 0
    requires KeepsText(text, kids[..|kids| - 1], s)
    ensures KeepsText(text, kids, s)
  {
    var init := kids[..|kids| - 1];
    var p := PruneIn(text, init, s);
    var c := kids[|kids| - 1];
    TextMerge(p.kids, c.tail);
    AppendBoth(p.text, TextIn(p.kids), text, KeptIn(init, s), c.tail);
    var m := |p.kids| - 1;
    assert PruneIn(text, kids, s) == Pruned(p.text, p.kids[..m] + [AddTail(p.kids[m], c.tail)]);
    assert KeptIn(kids, s) == KeptIn(init, s) + c.tail;
  }

  /** A dropped element with no kept sibling before it: its tail joins the text. */
  lemma {:induction false} KeepsTextLeading(text: seq<char>, kids: seq<Node>, s: Selector)
    requires |kids| > 0 && Matches(s, kids[|kids| - 1])
    requires |PruneIn(text, kids[..|kids| - 1], s).kids| == 0
    requires KeepsText(text, kids[..|kids| - 1], s)
    ensures KeepsText(text, kids, s)
  {
    var init := kids[..|kids| - 1];
    var p := PruneIn(text, init, s);
    var c := kids[|kids| - 1];
    assert TextIn(p.kids) == [];
    AppendBoth(p.text, [], text, KeptIn(init, s), c.tail);
    assert PruneIn(text, kids, s) == Pruned(p.text + c.tail, []);
    assert KeptIn(kids, s) == KeptIn(init, s) + c.tail;
  }

  lemma {:induction false} KeepsTextDropped(text: seq<char>, kids: seq<Node>, s: Selector)
    requires |kids| > 0 && Matches(s, kids[|kids| - 1])
    requires KeepsText(text, kids[..|kids| - 1], s)
    ensures KeepsText(text, kids, s)
  {
    if |PruneIn(text, kids[..|kids| - 1], s).kids| > 0 {
      KeepsTextMerged(text, kids, s);
    } else {
      KeepsTextLeading(text, kids, s);
    }
  }

  lemma {:induction false} PruneInKeepsText(text: seq<char>, kids: seq<Node>, s: Selector)
    ensures KeepsText(text, kids, s)
    decreases kids
  {
    if |kids| > 0 {
      var c := kids[|kids| - 1];
      PruneInKeepsText(text, kids[..|kids| - 1], s);
      if !Matches(s, c) {
        PruneKeepsText(c, s);
        KeepsTextKept(text, kids, s);
      } else {
        KeepsTextDropped(text, kids, s);
      }
    }
  }

  /** Pruning only removes elements, so an element free of matches for one
      selector stays free of them after pruning by any other. */
  lemma {:induction false} PruneKeepsFree(n: Node, s: Selector, t: Selector)
    requires FindAll(n, t) == []
    ensures FindAll(Prune(n, s), t) == []
    decreases n
  {
    PruneInKeepsFree(n.text, n.children, s, t);
  }

  lemma {:induction false} PruneInKeepsFree(text: seq<char>, kids: seq<Node>, s: Selector, t: Selector)
    requires FindIn(kids, t) == []
    ensures FindIn(PruneIn(text, kids, s).kids, t) == []
    decreases kids
  {
    if |kids| > 0 {
      var p := PruneIn(text, kids[..|kids| - 1], s);
      var c := kids[|kids| - 1];
      FreeParts(kids, t);
      PruneInKeepsFree(text, kids[..|kids| - 1], s, t);
      if !Matches(s, c) {
        PruneKeepsFree(c, s, t);
        AttributesDecide(t, c, Prune(c, s));
        FreeAppend(p.kids, Prune(c, s), t);
      } else if |p.kids| > 0 {
        FreeMerge(p.kids, c.tail, t);
      }
    }
  }

  /** Every `sup` is noise, so an element without noise has no `sup` below it. */
  lemma {:induction false} QuietHasNoSup(n: Node)
    requires FindAll(n, Noise) == []
    ensures FindAll(n, TagIs("sup")) == []
    decreases n
  {
    QuietHasNoSupIn(n.children);
  }

  lemma {:induction false} QuietHasNoSupIn(kids: seq<Node>)
    requires FindIn(kids, Noise) == []
    ensures FindIn(kids, TagIs("sup")) == []
    decreases kids
  {
    if |kids| > 0 {
      FreeParts(kids, Noise);
      QuietHasNoSupIn(kids[..|kids| - 1]);
      QuietHasNoSup(kids[|kids| - 1]);
    }
  }

  /** The filter is empty exactly when every node is blank. */
  lemma {:induction false} NonBlanksEmpty(ns: seq<Node>)
    ensures |NonBlanks(ns)| == 0 <==> forall i :: 0 <= i < |ns| ==> !NonBlank(ns[i])
    decreases |ns|
  {
    if |ns| > 0 {
      NonBlanksEmpty(ns[..|ns| - 1]);
    }
  }

  /** Node `j` is the first of `ns` that is not blank. */
  predicate FirstNonBlankAt(ns: seq<Node>, j: int) {
    0 <= j < |ns| && NonBlank(ns[j]) && forall i :: 0 <= i < j ==> !NonBlank(ns[i])
  }

  /** `(...)[1]` over a node list: a non-empty filter starts with the first node
      that is not blank. */
  lemma {:induction false} NonBlanksFirst(ns: seq<Node>)
    requires |NonBlanks(ns)| > 0
    ensures exists j :: FirstNonBlankAt(ns, j) && NonBlanks(ns)[0] == ns[j]
    decreases |ns|
  {
    var init := ns[..|ns| - 1];
    if |NonBlanks(init)| > 0 {
      NonBlanksFirst(init);
      var j :| FirstNonBlankAt(init, j) && NonBlanks(init)[0] == init[j];
      assert FirstNonBlankAt(ns, j);
    } else {
      NonBlanksEmpty(init);
      assert FirstNonBlankAt(ns, |ns| - 1);
    }
  }
}

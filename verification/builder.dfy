/**
  The element tree builder of the HTML parser.  For every tag child of a
  markup node it stamps the `tag`/`text`/`html` attributes, computes the
  child's styles, segments and re-parses the markup of non-empty text tags,
  builds one element (measured rectangles only for `browser_text`), appends
  it and recurses into the (possibly re-parsed) child.  A cancellation flag
  is read once at the top of every recursive call and once more when the
  walk is over.

  The markup parser, the serializer, the CSS parser, the unit resolver and
  the text renderer are collaborators the model does not see; they are
  fields of `Env`.
*/
module Builder {
  import opened Common
  import opened Styles
  import Segmenter

  type Attrs = map<string, string>

  /**
    A parsed markup node: a tag with attributes and children, a run of
    text, a string the markup library never counts as text (a comment, a
    doctype, a declaration or a processing instruction), or a string held
    in a container tag such as `script`, which takes the kind of the
    innermost container around it.  The serializer prints them all.
  */
  datatype Node =
    | Tag(name: string, attrs: Attrs, children: seq<Node>)
    | Text(s: string)
    | Special(s: string)
    | Contained(container: string, s: string)

  /**
    A rectangle slot of an element: a measured rectangle, the Python set
    literal the parser stores as a placeholder, or nothing at all.
  */
  datatype Box = Rect(x: int, y: int, w: int, h: int) | IntSet(items: set<int>) | Unset

  /** A node of the output tree. */
  datatype Element = Element(tag: string, attrs: Attrs, rect: Box, unused: Box, styles: StyleMap,
                             width: int, height: int, children: seq<Element>)

  /** The configuration the parser reads and the collaborators it calls. */
  datatype Env = Env(
    containerWidth: int,
    containerHeight: int,
    /** default font size per tag */
    sizes: SizeTable,
    /** the text-bearing tags */
    textTags: set<string>,
    /** the document parser: the top-level nodes of a document */
    parse: string -> seq<Node>,
    /** the fragment parser: name, attributes and children of the object it returns */
    reparse: string -> (string, Attrs, seq<Node>),
    /** `str(tag)` */
    serialize: Node -> string,
    /** the CSS parser on `name{ style }`: the declarations of its rules, in order */
    declarations: (string, string) -> seq<Declaration>,
    /** `int(remove_units(value, 0, 0, width, height))` */
    units: string -> int,
    /** the text renderer: used and unused rectangles of a text in given styles */
    measure: (string, StyleMap) -> (Box, Box))

  /** Why a parse raises instead of returning. */
  datatype Failure = SpliceIndexError | RecursionLimit | NoRootElement

  datatype Result<T> = Ok(value: T) | Err(failure: Failure)

  const TagKey: string := "tag"
  const TextKey: string := "text"
  const HtmlKey: string := "html"
  const TextElement: string := "browser_text"
  const ViewWidth: string := "view-width"
  const ViewHeight: string := "view-height"

  /**
    The tags whose strings the markup library stores as a kind of their own:
    ruby text and ruby parentheses, style sheets, scripts and template
    contents.
  */
  const StringContainers: set<string> := {"rt", "rp", "style", "script", "template"}

  /** The kind of string a tag's `.text` reads: its own kind for a container tag, plain text (`None`) otherwise. */
  function KindOf(name: string): (r: Option<string>)
    ensures r.Some? <==> name in StringContainers
    ensures r.Some? ==> r.value == name
  {
    if name in StringContainers then Some(name) else None
  }

  /** The strings of one kind below a node, in document order; `None` is plain text. */
  function StringsOf(n: Node, kind: Option<string>): string
  {
    match n
    case Text(s) => if kind.None? then s else ""
    case Contained(c, s) => if kind == Some(c) then s else ""
    case Special(_) => ""
    case Tag(_, _, kids) => StringsOfAll(kids, kind)
  }

  function StringsOfAll(kids: seq<Node>, kind: Option<string>): string
  {
    if |kids| == 0 then "" else StringsOf(kids[0], kind) + StringsOfAll(kids[1..], kind)
  }

  /**
    The markup library's `.text` of a tag named `name` with children `kids`:
    the strings of the tag's own kind below it.  An ordinary tag reads the
    runs of text and skips comments, the other special strings and the
    contents of scripts, style sheets, templates and ruby text; a container
    tag reads only strings of its own kind.
  */
  function TagText(name: string, kids: seq<Node>): string
  {
    StringsOfAll(kids, KindOf(name))
  }

  /** Children that are all comments or other special strings give no strings of any kind. */
  lemma {:induction false} SpecialsHaveNoText(kids: seq<Node>, kind: Option<string>)
    requires forall k :: 0 <= k < |kids| ==> kids[k].Special?
    ensures StringsOfAll(kids, kind) == ""
    decreases |kids|
  {
    if |kids| > 0 {
      SpecialsHaveNoText(kids[1..], kind);
    }
  }

  /** `.text` skips a special string wherever it sits among the children. */
  lemma {:induction false} TextSkipsSpecial(kind: Option<string>, before: seq<Node>, s: string, after: seq<Node>)
    ensures StringsOfAll(before + [Special(s)] + after, kind) == StringsOfAll(before + after, kind)
    decreases |before|
  {
    if |before| == 0 {
      assert before + [Special(s)] + after == [Special(s)] + after;
      assert ([Special(s)] + after)[1..] == after;
      assert before + after == after;
    } else {
      assert (before + [Special(s)] + after)[0] == before[0];
      assert (before + [Special(s)] + after)[1..] == before[1..] + [Special(s)] + after;
      assert (before + after)[0] == before[0];
      assert (before + after)[1..] == before[1..] + after;
      TextSkipsSpecial(kind, before[1..], s, after);
    }
  }

  /**
    A container tag holding only strings of its own kind: its own `.text`
    reads them, so it is empty exactly when they all are, and the `.text`
    of any ordinary tag around it skips them.
  */
  lemma {:induction false} ContainerTextIsOwn(c: string, attrs: Attrs, inner: seq<Node>)
    requires c in StringContainers
    requires forall k :: 0 <= k < |inner| ==> inner[k].Contained? && inner[k].container == c
    ensures StringsOf(Tag(c, attrs, inner), None) == ""
    ensures TagText(c, inner) == "" <==> forall k :: 0 <= k < |inner| ==> inner[k].s == ""
    decreases |inner|
  {
    if |inner| > 0 {
      var rest := inner[1..];
      ContainerTextIsOwn(c, attrs, rest);
      assert StringsOfAll(inner, None) == StringsOf(inner[0], None) + StringsOfAll(rest, None);
      assert KindOf(c) == Some(c);
      assert StringsOf(inner[0], Some(c)) == inner[0].s;
      assert TagText(c, inner) == inner[0].s + TagText(c, rest);
      assert (forall k :: 0 <= k < |inner| ==> inner[k].s == "") <==>
             inner[0].s == "" && forall k :: 0 <= k < |rest| ==> rest[k].s == "" by {
        assert forall k :: 0 < k < |inner| ==> inner[k] == rest[k - 1];
      }
    }
  }

  /** `<p>Hi<script>x</script></p>`: the paragraph reads `Hi`, the script reads `x`. */
  lemma ScriptTextExample()
    ensures TagText("p", [Text("Hi"), Tag("script", map[], [Contained("script", "x")])]) == "Hi"
    ensures TagText("script", [Contained("script", "x")]) == "x"
  {
    var script := Tag("script", map[], [Contained("script", "x")]);
    ContainerTextIsOwn("script", map[], [Contained("script", "x")]);
    assert [Text("Hi"), script][1..] == [script];
    assert [script][1..] == [];
    assert [Contained("script", "x")][1..] == [];
  }

  // ---------- one child ----------

  /**
    The three attributes stamped onto a tag: its name, its text without
    newlines and, computed after those two are in place, its serialization
    without newlines.
  */
  function Stamp(env: Env, name: string, attrs: Attrs, kids: seq<Node>): (r: Node)
    ensures r.Tag? && r.name == name && r.children == kids
    ensures r.attrs.Keys == attrs.Keys + {TagKey, TextKey, HtmlKey}
    ensures r.attrs[TagKey] == name
    ensures r.attrs[TextKey] == DropNewlines(TagText(name, kids))
    ensures r.attrs[HtmlKey] ==
      DropNewlines(env.serialize(Tag(name, attrs[TagKey := name][TextKey := DropNewlines(TagText(name, kids))], kids)))
    ensures forall i :: 0 <= i < |r.attrs[HtmlKey]| ==> r.attrs[HtmlKey][i] != '\n'
    ensures forall k :: k in attrs && k != TagKey && k != TextKey && k != HtmlKey ==> r.attrs[k] == attrs[k]
  {
    var named := attrs[TagKey := name][TextKey := DropNewlines(TagText(name, kids))];
    Tag(name, named[HtmlKey := DropNewlines(env.serialize(Tag(name, named, kids)))], kids)
  }

  /** A node carries the three stamped attributes. */
  predicate Stamped(n: Node)
  {
    n.Tag? && TagKey in n.attrs && TextKey in n.attrs && HtmlKey in n.attrs
  }

  /** A tag child with the three attributes stamped onto it. */
  function StampedChild(env: Env, n: Node): (r: Node)
    requires n.Tag?
    ensures Stamped(r) && r.name == n.name && r.children == n.children
  {
    Stamp(env, n.name, n.attrs, n.children)
  }

  /** The node the fragment parser makes of segmented markup, stamped in turn. */
  function Reparsed(env: Env, markup: string): (r: Node)
    ensures Stamped(r)
  {
    var (name, attrs, kids) := env.reparse(markup);
    Stamp(env, name, attrs, kids)
  }

  /** What pre-parsing leaves: the node used from then on and whether the pixel font size is forced. */
  datatype Prepared = Prepared(node: Node, force: bool)

  /** The child is a text-bearing tag with some text: the case where pre-parsing acts. */
  predicate Segments(env: Env, n: Node)
  {
    n.Tag? && n.name in env.textTags && TagText(n.name, n.children) != ""
  }

  /** A text tag that holds only comments or other special strings is not segmented. */
  lemma SpecialsOnlyDoNotSegment(env: Env, name: string, attrs: Attrs, kids: seq<Node>)
    requires forall k :: 0 <= k < |kids| ==> kids[k].Special?
    ensures !Segments(env, Tag(name, attrs, kids))
  {
    SpecialsHaveNoText(kids, KindOf(name));
  }

  /**
    An ordinary text tag whose only child is a script, style sheet,
    template or ruby text holding its own strings is not segmented, however
    much the container holds.
  */
  lemma ContainerOnlyDoesNotSegment(env: Env, name: string, attrs: Attrs, c: string, cattrs: Attrs, inner: seq<Node>)
    requires name !in StringContainers && c in StringContainers
    requires forall k :: 0 <= k < |inner| ==> inner[k].Contained? && inner[k].container == c
    ensures !Segments(env, Tag(name, attrs, [Tag(c, cattrs, inner)]))
  {
    ContainerTextIsOwn(c, cattrs, inner);
    var kids := [Tag(c, cattrs, inner)];
    assert kids[1..] == [];
    assert TagText(name, kids) == StringsOf(kids[0], None) + StringsOfAll([], None);
  }

  /**
    Pre-parsing of a stamped child: a non-empty text tag whose markup holds
    no `<browser_text>` yet is segmented and re-parsed (the splice loop can
    raise); one whose markup already holds it keeps its node and gets the
    pixel font size; any other tag is left as it is.
  */
  function PreParse(env: Env, n: Node): (r: Result<Prepared>)
    requires Stamped(n)
    ensures r.Ok? ==> Stamped(r.value.node)
    ensures r.Ok? ==> (r.value.force <==> Segments(env, n) && Segmenter.Contains(n.attrs[HtmlKey], Segmenter.OpenMark))
    ensures r.Err? <==> Segments(env, n) && !Segmenter.Contains(n.attrs[HtmlKey], Segmenter.OpenMark)
                        && Segmenter.SegmentAsWritten(n.attrs[HtmlKey]).None?
    ensures r.Err? ==> r.failure == SpliceIndexError
    ensures r.Ok? && !Segments(env, n) ==> r.value.node == n
    ensures r.Ok? && r.value.force ==> r.value.node == n
    ensures r.Ok? && Segments(env, n) && !Segmenter.Contains(n.attrs[HtmlKey], Segmenter.OpenMark) ==>
      Segmenter.SegmentAsWritten(n.attrs[HtmlKey]).Some? &&
      r.value.node == Reparsed(env, Segmenter.SegmentAsWritten(n.attrs[HtmlKey]).value)
  {
    var html := n.attrs[HtmlKey];
    if Segments(env, n) then
      if !Segmenter.Contains(html, Segmenter.OpenMark) then
        match Segmenter.SegmentAsWritten(html)
        case None => Err(SpliceIndexError)
        case Some(segmented) => Ok(Prepared(Reparsed(env, segmented), false))
      else Ok(Prepared(n, true))
    else Ok(Prepared(n, false))
  }

  /** The inline declarations of a node: none unless it has a `style` attribute. */
  function InlineDeclarations(env: Env, n: Node): (r: seq<Declaration>)
    requires n.Tag?
    ensures "style" !in n.attrs ==> r == []
  {
    if "style" in n.attrs then env.declarations(n.name, n.attrs["style"]) else []
  }

  /** A non-empty text tag whose stamped markup is already segmented gets the pixel font size. */
  predicate ForcesSize(env: Env, n: Node)
    requires n.Tag?
  {
    Segments(env, n) && Segmenter.Contains(StampedChild(env, n).attrs[HtmlKey], Segmenter.OpenMark)
  }

  /** The placeholder rectangle: the Python set `{0, 0, width, height}`, duplicates collapsed. */
  function Placeholder(env: Env): (r: Box)
    ensures r.IntSet? && r.items == {0, env.containerWidth, env.containerHeight}
  {
    IntSet({0, 0, env.containerWidth, env.containerHeight})
  }

  /** The element built from a prepared node, before its own children are added. */
  function Fresh(env: Env, node: Node, styles: StyleMap, width: int, height: int): (e: Element)
    requires Stamped(node)
    ensures e.tag == node.name && e.attrs == node.attrs && e.children == []
    ensures e.styles == styles && e.width == width && e.height == height
    ensures e.tag == TextElement ==> (e.rect, e.unused) == env.measure(node.attrs[TextKey], styles)
    ensures e.tag != TextElement ==> e.rect == Placeholder(env) && e.unused == IntSet({0})
  {
    var (rect, unused) :=
      if node.name == TextElement then env.measure(node.attrs[TextKey], styles)
      else assert {0, 0, 0, 0} == {0}; (Placeholder(env), IntSet({0, 0, 0, 0}));
    Element(node.name, node.attrs, rect, unused, styles, width, height, [])
  }

  /** Stamping leaves every attribute other than the three it writes as it was. */
  lemma StampKeeps(env: Env, n: Node, key: string, default: string)
    requires n.Tag? && key != TagKey && key != TextKey && key != HtmlKey
    ensures Get(StampedChild(env, n).attrs, key, default) == Get(n.attrs, key, default)
  {
  }

  /**
    Stamping does not change whether pre-parsing acts on a child, and
    pre-parsing forces the pixel font size exactly for the children
    `ForcesSize` picks out.
  */
  lemma ForceMeans(env: Env, n: Node)
    requires n.Tag?
    ensures Segments(env, StampedChild(env, n)) <==> Segments(env, n)
    ensures var p := PreParse(env, StampedChild(env, n));
      p.Ok? ==> (p.value.force <==> ForcesSize(env, n))
  {
    assert StampedChild(env, n).name == n.name && StampedChild(env, n).children == n.children;
  }

  /**
    The element the parser appends for one tag child, before its own
    children are added, together with the node it recurses into.
  */
  function MakeChild(env: Env, parent: StyleMap, n: Node): (r: Result<(Node, Element)>)
    requires n.Tag?
    ensures r.Err? ==> r.failure == SpliceIndexError
    ensures r.Err? <==> Segments(env, n) && !ForcesSize(env, n) &&
                        Segmenter.SegmentAsWritten(StampedChild(env, n).attrs[HtmlKey]).None?
    ensures r.Ok? && (!Segments(env, n) || ForcesSize(env, n)) ==> r.value.0 == StampedChild(env, n)
    ensures r.Ok? && Segments(env, n) && !ForcesSize(env, n) ==>
      r.value.0 == Reparsed(env, Segmenter.SegmentAsWritten(StampedChild(env, n).attrs[HtmlKey]).value)
    ensures r.Ok? ==> var (node, e) := r.value;
      Stamped(node) && node.Tag? && e.tag == node.name && e.attrs == node.attrs && e.children == []
    ensures r.Ok? ==> var (node, e) := r.value;
      e.width == env.units(Get(n.attrs, "width", "0")) && e.height == env.units(Get(n.attrs, "height", "0"))
    ensures r.Ok? ==> var (node, e) := r.value;
      e.tag == TextElement ==> (e.rect, e.unused) == env.measure(node.attrs[TextKey], e.styles)
    ensures r.Ok? ==> var (node, e) := r.value;
      e.tag != TextElement ==> e.rect == Placeholder(env) && e.unused == IntSet({0})
    ensures r.Ok? ==> var (node, e) := r.value;
      e.styles == ChildStyles(parent, env.sizes, n.name, ForcesSize(env, n), InlineDeclarations(env, node))
  {
    var stamped := StampedChild(env, n);
    ForceMeans(env, n);
    StampKeeps(env, n, "width", "0");
    StampKeeps(env, n, "height", "0");
    var width := env.units(Get(stamped.attrs, "width", "0"));
    var height := env.units(Get(stamped.attrs, "height", "0"));
    match PreParse(env, stamped)
    case Err(e) => Err(e)
    case Ok(p) =>
      var styles := ChildStyles(parent, env.sizes, n.name, p.force, InlineDeclarations(env, p.node));
      Ok((p.node, Fresh(env, p.node, styles, width, height)))
  }

  // ---------- the recursive walk ----------

  /** When the cancellation flag turns on, counted in checks of the flag (from 0). */
  datatype Stop = Never | RaisedAfter(checks: nat)

  /** The j-th read of the flag, counting from 0, sees it set. */
  predicate Observed(stop: Stop, j: nat)
  {
    stop.RaisedAfter? && stop.checks <= j
  }

  /** The elements one call appends to its parent, and the number of flag checks made so far. */
  datatype Walk = Walk(children: seq<Element>, checks: nat)

  /** The children the walk iterates over: none for a text node. */
  function Kids(n: Node): seq<Node>
  {
    if n.Tag? then n.children else []
  }

  /**
    One call of the recursive walk on `tag`, whose element has `styles`:
    it checks the flag (the `checks`-th read) and returns at once when it is
    set.  `frames` is how many more nested calls Python can push before it
    raises its recursion error.
  */
  function Visit(env: Env, stop: Stop, frames: nat, tag: Node, styles: StyleMap, checks: nat): (r: Result<Walk>)
    ensures r.Ok? ==> r.value.checks > checks
    decreases frames, 1
  {
    if frames == 0 then Err(RecursionLimit)
    else if Observed(stop, checks) then Ok(Walk([], checks + 1))
    else VisitChildren(env, stop, frames - 1, Kids(tag), styles, checks + 1)
  }

  /**
    The loop over the children: text children are skipped; every tag child
    gets its element, whose children are what the nested call appends.
  */
  function VisitChildren(env: Env, stop: Stop, frames: nat, kids: seq<Node>, styles: StyleMap, checks: nat): (r: Result<Walk>)
    ensures r.Ok? ==> r.value.checks >= checks
    decreases frames, 2, |kids|
  {
    if |kids| == 0 then Ok(Walk([], checks))
    else if !kids[0].Tag? then VisitChildren(env, stop, frames, kids[1..], styles, checks)
    else
      match MakeChild(env, styles, kids[0])
      case Err(e) => Err(e)
      case Ok((node, e)) =>
        match Visit(env, stop, frames, node, e.styles, checks)
        case Err(f) => Err(f)
        case Ok(inner) =>
          match VisitChildren(env, stop, frames, kids[1..], styles, inner.checks)
          case Err(f) => Err(f)
          case Ok(rest) => Ok(Walk([e.(children := inner.children)] + rest.children, rest.checks))
  }

  // ---------- the document ----------

  /** Where the first tag among the top-level nodes is; `|nodes|` when there is none. */
  function FirstTagAt(nodes: seq<Node>): (r: nat)
    ensures r <= |nodes|
    ensures r < |nodes| ==> nodes[r].Tag?
    ensures forall j :: 0 <= j < r ==> !nodes[j].Tag?
  {
    if |nodes| == 0 || nodes[0].Tag? then 0 else 1 + FirstTagAt(nodes[1..])
  }

  /** The root element before the walk: the first tag's name and attributes and the two viewport styles. */
  function RootElement(env: Env, first: Node): Element
    requires first.Tag?
  {
    Element(first.name, first.attrs, Unset, Unset,
            map[ViewWidth := Num(env.containerWidth), ViewHeight := Num(env.containerHeight)], 0, 0, [])
  }

  /** The root element and the walk below it. */
  function RootWalk(env: Env, stop: Stop, frames: nat, html: string): Result<(Element, Walk)>
  {
    var nodes := env.parse(html);
    var i := FirstTagAt(nodes);
    if i == |nodes| then Err(NoRootElement)
    else
      var root := RootElement(env, nodes[i]);
      match Visit(env, stop, frames, nodes[i], root.styles, 0)
      case Err(f) => Err(f)
      case Ok(w) => Ok((root, w))
  }

  /** What a parse gives: the document's root element, the "no result" of a cancelled parse, or a raised error. */
  datatype Parsed = Document(root: Element) | Cancelled | Failed(failure: Failure)

  /** The parse of a document: the walk, then one more read of the flag. */
  function ParseHtml(env: Env, stop: Stop, frames: nat, html: string): Parsed
  {
    match RootWalk(env, stop, frames, html)
    case Err(f) => Failed(f)
    case Ok((root, w)) => if Observed(stop, w.checks) then Cancelled else Document(root.(children := w.children))
  }

  // ---------- one element per tag child ----------

  /** How many of the nodes are tags. */
  function TagCount(kids: seq<Node>): nat
  {
    if |kids| == 0 then 0 else (if kids[0].Tag? then 1 else 0) + TagCount(kids[1..])
  }

  /**
    Reference for the loop over the children, without the recursion: the
    childless element of every tag child, in order, or the first failure.
  */
  function Heads(env: Env, styles: StyleMap, kids: seq<Node>): (r: Result<seq<Element>>)
    ensures r.Ok? ==> |r.value| == TagCount(kids)
  {
    if |kids| == 0 then Ok([])
    else if !kids[0].Tag? then Heads(env, styles, kids[1..])
    else
      match MakeChild(env, styles, kids[0])
      case Err(f) => Err(f)
      case Ok((_, e)) =>
        match Heads(env, styles, kids[1..])
        case Err(f) => Err(f)
        case Ok(rest) => Ok([e] + rest)
  }

  /** The elements with their children taken away. */
  function Bare(es: seq<Element>): (r: seq<Element>)
    ensures |r| == |es|
  {
    if |es| == 0 then [] else [es[0].(children := [])] + Bare(es[1..])
  }

  lemma BareCons(x: Element, xs: seq<Element>)
    ensures Bare([x] + xs) == [x.(children := [])] + Bare(xs)
  {
    assert ([x] + xs)[1..] == xs;
  }

  /** The loop over the children and its reference, one child at a time. */
  lemma LoopStep(env: Env, stop: Stop, frames: nat, kids: seq<Node>, styles: StyleMap, checks: nat)
    ensures |kids| == 0 ==> VisitChildren(env, stop, frames, kids, styles, checks) == Ok(Walk([], checks))
    ensures |kids| == 0 ==> Heads(env, styles, kids) == Ok([])
    ensures |kids| > 0 && !kids[0].Tag? ==>
      VisitChildren(env, stop, frames, kids, styles, checks) == VisitChildren(env, stop, frames, kids[1..], styles, checks) &&
      Heads(env, styles, kids) == Heads(env, styles, kids[1..])
    ensures |kids| > 0 && kids[0].Tag? && MakeChild(env, styles, kids[0]).Err? ==>
      VisitChildren(env, stop, frames, kids, styles, checks) == Err(MakeChild(env, styles, kids[0]).failure) &&
      Heads(env, styles, kids) == Err(MakeChild(env, styles, kids[0]).failure)
    ensures |kids| > 0 && kids[0].Tag? && MakeChild(env, styles, kids[0]).Ok? ==>
      var (node, e) := MakeChild(env, styles, kids[0]).value;
      var hs := Heads(env, styles, kids[1..]);
      var v := Visit(env, stop, frames, node, e.styles, checks);
      (hs.Err? ==> Heads(env, styles, kids) == hs) &&
      (hs.Ok? ==> Heads(env, styles, kids) == Ok([e] + hs.value)) &&
      (v.Err? ==> VisitChildren(env, stop, frames, kids, styles, checks) == Err(v.failure)) &&
      (v.Ok? ==>
        var rest := VisitChildren(env, stop, frames, kids[1..], styles, v.value.checks);
        (rest.Err? ==> VisitChildren(env, stop, frames, kids, styles, checks) == rest) &&
        (rest.Ok? ==>
           VisitChildren(env, stop, frames, kids, styles, checks) ==
           Ok(Walk([e.(children := v.value.children)] + rest.value.children, rest.value.checks))))
  {
  }

  /** Once set, the flag stays set. */
  lemma ObservedLater(stop: Stop, j: nat, k: nat)
    requires Observed(stop, j) && j <= k
    ensures Observed(stop, k)
  {
  }

  /** A call that sees the flag appends nothing. */
  lemma VisitSeesFlag(env: Env, stop: Stop, frames: nat, tag: Node, styles: StyleMap, checks: nat)
    requires frames > 0 && Observed(stop, checks)
    ensures Visit(env, stop, frames, tag, styles, checks) == Ok(Walk([], checks + 1))
  {
  }

  /** One call of the walk, unfolded. */
  lemma VisitStep(env: Env, stop: Stop, frames: nat, tag: Node, styles: StyleMap, checks: nat)
    ensures frames == 0 ==> Visit(env, stop, frames, tag, styles, checks) == Err(RecursionLimit)
    ensures frames > 0 && Observed(stop, checks) ==> Visit(env, stop, frames, tag, styles, checks) == Ok(Walk([], checks + 1))
    ensures frames > 0 && !Observed(stop, checks) ==>
      Visit(env, stop, frames, tag, styles, checks) == VisitChildren(env, stop, frames - 1, Kids(tag), styles, checks + 1)
  {
  }

  lemma ObservedMeans(stop: Stop, j: nat)
    ensures Observed(stop, j) <==> stop.RaisedAfter? && stop.checks <= j
  {
  }

  /**
    The loop appends exactly one element per tag child, in document order:
    stripped of their children, the appended elements are the reference
    elements of the tag children.
  */
  lemma {:induction false} OneElementPerTag(env: Env, stop: Stop, frames: nat, kids: seq<Node>, styles: StyleMap, checks: nat)
    requires VisitChildren(env, stop, frames, kids, styles, checks).Ok?
    ensures var w := VisitChildren(env, stop, frames, kids, styles, checks).value;
      Heads(env, styles, kids) == Ok(Bare(w.children)) && |w.children| == TagCount(kids)
    decreases |kids|
  {
    hide *;
    LoopStep(env, stop, frames, kids, styles, checks);
    if |kids| > 0 {
      if !kids[0].Tag? {
        OneElementPerTag(env, stop, frames, kids[1..], styles, checks);
      } else {
        var (node, e) := MakeChild(env, styles, kids[0]).value;
        var inner := Visit(env, stop, frames, node, e.styles, checks).value;
        var rest := VisitChildren(env, stop, frames, kids[1..], styles, inner.checks).value;
        OneElementPerTag(env, stop, frames, kids[1..], styles, inner.checks);
        assert e.(children := inner.children).(children := []) == e;
        BareCons(e.(children := inner.children), rest.children);
      }
    } else {
      assert Bare([]) == [];
    }
  }

  // ---------- every element carries the size keys ----------

  /** An element and all elements below it hold the two font-size bookkeeping keys. */
  predicate Sized(e: Element)
  {
    TextTagSize in e.styles && ParentTagSize in e.styles && forall k :: 0 <= k < |e.children| ==> Sized(e.children[k])
  }

  predicate AllSized(es: seq<Element>)
  {
    forall k :: 0 <= k < |es| ==> Sized(es[k])
  }

  lemma AllSizedNil()
    ensures AllSized([])
  {
  }

  /** An element whose styles hold the keys, over sized children, in front of sized siblings. */
  lemma AllSizedCons(e: Element, below: seq<Element>, rest: seq<Element>)
    requires TextTagSize in e.styles && ParentTagSize in e.styles && AllSized(below) && AllSized(rest)
    ensures AllSized([e.(children := below)] + rest)
  {
    var all := [e.(children := below)] + rest;
    assert Sized(all[0]);
    forall k | 0 < k < |all| ensures Sized(all[k]) {
      assert all[k] == rest[k - 1];
    }
  }

  lemma {:induction false} VisitSized(env: Env, stop: Stop, frames: nat, tag: Node, styles: StyleMap, checks: nat)
    requires Visit(env, stop, frames, tag, styles, checks).Ok?
    ensures AllSized(Visit(env, stop, frames, tag, styles, checks).value.children)
    decreases frames, 1
  {
    if !Observed(stop, checks) {
      VisitChildrenSized(env, stop, frames - 1, Kids(tag), styles, checks + 1);
    }
  }

  /** Every element the walk appends, at any depth, holds `text-tag-size` and `parent-tag-size`. */
  lemma {:induction false} VisitChildrenSized(env: Env, stop: Stop, frames: nat, kids: seq<Node>, styles: StyleMap, checks: nat)
    requires VisitChildren(env, stop, frames, kids, styles, checks).Ok?
    ensures AllSized(VisitChildren(env, stop, frames, kids, styles, checks).value.children)
    decreases frames, 2, |kids|
  {
    hide *;
    LoopStep(env, stop, frames, kids, styles, checks);
    if |kids| == 0 {
      AllSizedNil();
    } else if !kids[0].Tag? {
      VisitChildrenSized(env, stop, frames, kids[1..], styles, checks);
    } else {
      var n := kids[0];
      var (node, e) := MakeChild(env, styles, n).value;
      var inner := Visit(env, stop, frames, node, e.styles, checks).value;
      var rest := VisitChildren(env, stop, frames, kids[1..], styles, inner.checks).value;
      ChildHasSizeKeys(styles, env.sizes, n.name, ForcesSize(env, n), InlineDeclarations(env, node));
      VisitSized(env, stop, frames, node, e.styles, checks);
      VisitChildrenSized(env, stop, frames, kids[1..], styles, inner.checks);
      AllSizedCons(e, inner.children, rest.children);
    }
  }

  // ---------- cancellation ----------

  /**
    Once the flag has been seen, the loop still appends one childless
    element per remaining tag child: each nested call returns at once but
    the loop itself never reads the flag.
  */
  lemma {:induction false} CancelledLoopKeepsAppending(env: Env, stop: Stop, frames: nat, kids: seq<Node>, styles: StyleMap, checks: nat)
    requires frames > 0 && Observed(stop, checks)
    ensures VisitChildren(env, stop, frames, kids, styles, checks) ==
      match Heads(env, styles, kids)
      case Ok(hs) => Ok(Walk(hs, checks + |hs|))
      case Err(f) => Err(f)
    decreases |kids|
  {
    hide *;
    LoopStep(env, stop, frames, kids, styles, checks);
    if |kids| > 0 && kids[0].Tag? {
      match MakeChild(env, styles, kids[0])
      case Err(f) =>
      case Ok((node, e)) =>
        VisitSeesFlag(env, stop, frames, node, e.styles, checks);
        ObservedLater(stop, checks, checks + 1);
        assert e.(children := []) == e;
        CancelledLoopKeepsAppending(env, stop, frames, kids[1..], styles, checks + 1);
    } else if |kids| > 0 {
      CancelledLoopKeepsAppending(env, stop, frames, kids[1..], styles, checks);
    }
  }

  /**
    A walk with the flag raised before its `n`-th check, compared with the
    walk that never sees it: when the unflagged walk makes at most `n`
    checks the two agree; otherwise the flagged walk makes its `n`-th check
    and so sees the flag.  Either way it does not fail.
  */
  lemma {:induction false} VisitUnderFlag(env: Env, n: nat, frames: nat, tag: Node, styles: StyleMap, checks: nat)
    requires Visit(env, Never, frames, tag, styles, checks).Ok?
    ensures var w := Visit(env, Never, frames, tag, styles, checks).value;
      var r := Visit(env, RaisedAfter(n), frames, tag, styles, checks);
      r.Ok? && (w.checks <= n ==> r.value == w) && (n < w.checks ==> r.value.checks > n)
    decreases frames, 1
  {
    if n > checks {
      ChildrenUnderFlag(env, n, frames - 1, Kids(tag), styles, checks + 1);
    }
  }

  lemma {:induction false} ChildrenUnderFlag(env: Env, n: nat, frames: nat, kids: seq<Node>, styles: StyleMap, checks: nat)
    requires VisitChildren(env, Never, frames, kids, styles, checks).Ok?
    ensures var w := VisitChildren(env, Never, frames, kids, styles, checks).value;
      var r := VisitChildren(env, RaisedAfter(n), frames, kids, styles, checks);
      r.Ok? && (w.checks <= n ==> r.value == w) && (n < w.checks ==> r.value.checks > n)
    decreases frames, 2, |kids|
  {
    hide *;
    LoopStep(env, Never, frames, kids, styles, checks);
    LoopStep(env, RaisedAfter(n), frames, kids, styles, checks);
    if |kids| > 0 {
      if !kids[0].Tag? {
        ChildrenUnderFlag(env, n, frames, kids[1..], styles, checks);
      } else {
        var (node, e) := MakeChild(env, styles, kids[0]).value;
        var inner := Visit(env, Never, frames, node, e.styles, checks).value;
        VisitUnderFlag(env, n, frames, node, e.styles, checks);
        var inner' := Visit(env, RaisedAfter(n), frames, node, e.styles, checks).value;
        if inner.checks <= n {
          ChildrenUnderFlag(env, n, frames, kids[1..], styles, inner.checks);
        } else {
          VisitStep(env, Never, frames, node, e.styles, checks);
          ObservedMeans(RaisedAfter(n), inner'.checks);
          OneElementPerTag(env, Never, frames, kids[1..], styles, inner.checks);
          CancelledLoopKeepsAppending(env, RaisedAfter(n), frames, kids[1..], styles, inner'.checks);
        }
      }
    }
  }

  /**
    The parse with the flag raised before its `n`-th check: "no result" when
    the unflagged walk makes `n` checks or more (its final check then sees
    the flag), the unflagged document otherwise.
  */
  lemma ParseUnderFlag(env: Env, n: nat, frames: nat, html: string)
    requires RootWalk(env, Never, frames, html).Ok?
    ensures var (root, w) := RootWalk(env, Never, frames, html).value;
      ParseHtml(env, RaisedAfter(n), frames, html) ==
        if n <= w.checks then Cancelled else Document(root.(children := w.children))
  {
    var nodes := env.parse(html);
    var i := FirstTagAt(nodes);
    VisitUnderFlag(env, n, frames, nodes[i], RootElement(env, nodes[i]).styles, 0);
  }

  /** A flag raised before the parse starts always gives "no result". */
  lemma CancelledBeforeStart(env: Env, frames: nat, html: string)
    requires FirstTagAt(env.parse(html)) < |env.parse(html)| && frames > 0
    ensures ParseHtml(env, RaisedAfter(0), frames, html) == Cancelled
  {
    var nodes := env.parse(html);
    var i := FirstTagAt(nodes);
    assert Visit(env, RaisedAfter(0), frames, nodes[i], RootElement(env, nodes[i]).styles, 0) == Ok(Walk([], 1));
  }

  /**
    Without the flag a successful walk gives a document: the root element is
    the first tag with the viewport styles, and every element below it holds
    the size keys.
  */
  lemma ParseWithoutFlag(env: Env, frames: nat, html: string)
    requires RootWalk(env, Never, frames, html).Ok?
    ensures var p := ParseHtml(env, Never, frames, html);
      var nodes := env.parse(html);
      p.Document? && FirstTagAt(nodes) < |nodes| &&
      p.root.tag == nodes[FirstTagAt(nodes)].name && p.root.attrs == nodes[FirstTagAt(nodes)].attrs &&
      p.root.styles == map[ViewWidth := Num(env.containerWidth), ViewHeight := Num(env.containerHeight)] &&
      AllSized(p.root.children)
  {
    var nodes := env.parse(html);
    var i := FirstTagAt(nodes);
    VisitSized(env, Never, frames, nodes[i], RootElement(env, nodes[i]).styles, 0);
  }

  /** Markup whose brackets alternate never makes the splice loop raise. */
  lemma PreParseOnBracketed(env: Env, n: Node)
    requires Stamped(n) && Segmenter.WellBracketed(n.attrs[HtmlKey])
    ensures PreParse(env, n).Ok?
  {
    Segmenter.SegmentWrapsGaps(n.attrs[HtmlKey]);
  }
}

/**
 * The post renderer: turns an editor document tree (nodes with a type,
 * children, text, attributes and marks) into HTML for the post page, and
 * falls back to the trimmed input when the content is not a well-formed
 * `doc` tree.
 */
module PostContent {
  import opened Wrappers
  import opened JsString
  import opened JsNumber

  // ---------------------------------------------------------------------
  // Escaping
  // ---------------------------------------------------------------------

  /** `s.replace(/c/g, r)`: every occurrence of the character `c` becomes `r`. */
  function ReplaceAll(s: string, c: char, r: string): string {
    if s == [] then [] else (if s[0] == c then r else [s[0]]) + ReplaceAll(s[1..], c, r)
  }

  /** `escapeHtml`: `&`, `<`, `>` and `"` are replaced, in that order, by their entities. */
  function EscapeHtml(text: string): string {
    ReplaceAll(ReplaceAll(ReplaceAll(ReplaceAll(text, '&', "&amp;"), '<', "&lt;"), '>', "&gt;"), '"', "&quot;")
  }

  /** The four entities `escapeHtml` produces. */
  predicate EntityAt(s: string, i: nat)
    requires i <= |s|
  {
    StartsWith(s[i..], "&amp;") || StartsWith(s[i..], "&lt;") || StartsWith(s[i..], "&gt;") || StartsWith(s[i..], "&quot;")
  }

  /**
   * The shape of escaped text: no `<`, `>` or `"` at all, and every `&`
   * begins one of the four entities.
   */
  predicate Escaped(s: string) {
    && '<' !in s && '>' !in s && '"' !in s
    && forall i :: 0 <= i < |s| && s[i] == '&' ==> EntityAt(s, i)
  }

  /** Replacing a character distributes over concatenation. */
  lemma {:induction false} ReplaceAllAppend(a: string, b: string, c: char, r: string)
    ensures ReplaceAll(a + b, c, r) == ReplaceAll(a, c, r) + ReplaceAll(b, c, r)
  {
    if a == [] {
      assert a + b == b;
    } else {
      assert (a + b)[0] == a[0] && (a + b)[1..] == a[1..] + b;
      ReplaceAllAppend(a[1..], b, c, r);
    }
  }

  /** Replacing in a one-character string. */
  lemma ReplaceAllSingle(x: char, c: char, r: string)
    ensures ReplaceAll([x], c, r) == if x == c then r else [x]
  {
    assert [x][1..] == [];
  }

  /** Replacing a character that does not occur changes nothing. */
  lemma {:induction false} ReplaceAllAbsent(s: string, c: char, r: string)
    requires c !in s
    ensures ReplaceAll(s, c, r) == s
  {
    if s != [] {
      assert s == [s[0]] + s[1..];
      ReplaceAllAbsent(s[1..], c, r);
    }
  }

  /** Escaping distributes over concatenation. */
  lemma EscapeHtmlAppend(a: string, b: string)
    ensures EscapeHtml(a + b) == EscapeHtml(a) + EscapeHtml(b)
  {
    var a1, b1 := ReplaceAll(a, '&', "&amp;"), ReplaceAll(b, '&', "&amp;");
    ReplaceAllAppend(a, b, '&', "&amp;");
    var a2, b2 := ReplaceAll(a1, '<', "&lt;"), ReplaceAll(b1, '<', "&lt;");
    ReplaceAllAppend(a1, b1, '<', "&lt;");
    var a3, b3 := ReplaceAll(a2, '>', "&gt;"), ReplaceAll(b2, '>', "&gt;");
    ReplaceAllAppend(a2, b2, '>', "&gt;");
    ReplaceAllAppend(a3, b3, '"', "&quot;");
  }

  /** Text without the four special characters is its own escape. */
  lemma EscapeHtmlPlain(s: string)
    requires '&' !in s && '<' !in s && '>' !in s && '"' !in s
    ensures EscapeHtml(s) == s
  {
    ReplaceAllAbsent(s, '&', "&amp;");
    ReplaceAllAbsent(s, '<', "&lt;");
    ReplaceAllAbsent(s, '>', "&gt;");
    ReplaceAllAbsent(s, '"', "&quot;");
  }

  /** The escape of a single character: its entity, or the character itself. */
  function EscapeChar(c: char): string {
    if c == '&' then "&amp;"
    else if c == '<' then "&lt;"
    else if c == '>' then "&gt;"
    else if c == '"' then "&quot;"
    else [c]
  }

  /** The four chained replacements escape each character on its own: `&` first, so no entity is escaped twice. */
  lemma EscapeHtmlChar(c: char)
    ensures EscapeHtml([c]) == EscapeChar(c)
  {
    if c == '&' { EscapeAmp(); }
    else if c == '<' { EscapeLt(); }
    else if c == '>' { EscapeGt(); }
    else if c == '"' { EscapeQuot(); }
    else { EscapeOrdinary(c); }
  }

  lemma EscapeAmp()
    ensures EscapeHtml("&") == "&amp;"
  {
    var amp := "&amp;";
    ReplaceAllSingle('&', '&', amp);
    assert '<' !in amp && '>' !in amp && '"' !in amp;
    ReplaceAllAbsent(amp, '<', "&lt;");
    ReplaceAllAbsent(amp, '>', "&gt;");
    ReplaceAllAbsent(amp, '"', "&quot;");
  }

  lemma EscapeLt()
    ensures EscapeHtml("<") == "&lt;"
  {
    var lt := "&lt;";
    ReplaceAllSingle('<', '&', "&amp;");
    ReplaceAllSingle('<', '<', lt);
    assert '>' !in lt && '"' !in lt;
    ReplaceAllAbsent(lt, '>', "&gt;");
    ReplaceAllAbsent(lt, '"', "&quot;");
  }

  lemma EscapeGt()
    ensures EscapeHtml(">") == "&gt;"
  {
    var gt := "&gt;";
    ReplaceAllSingle('>', '&', "&amp;");
    ReplaceAllSingle('>', '<', "&lt;");
    ReplaceAllSingle('>', '>', gt);
    assert '"' !in gt;
    ReplaceAllAbsent(gt, '"', "&quot;");
  }

  lemma EscapeQuot()
    ensures EscapeHtml("\"") == "&quot;"
  {
    ReplaceAllSingle('"', '&', "&amp;");
    ReplaceAllSingle('"', '<', "&lt;");
    ReplaceAllSingle('"', '>', "&gt;");
    ReplaceAllSingle('"', '"', "&quot;");
  }

  lemma EscapeOrdinary(c: char)
    requires c != '&' && c != '<' && c != '>' && c != '"'
    ensures EscapeHtml([c]) == [c]
  {
    ReplaceAllSingle(c, '&', "&amp;");
    ReplaceAllSingle(c, '<', "&lt;");
    ReplaceAllSingle(c, '>', "&gt;");
    ReplaceAllSingle(c, '"', "&quot;");
  }

  /** Escaping a non-empty string: the first character's escape, then the rest escaped. */
  lemma EscapeHtmlCons(s: string)
    requires s != []
    ensures EscapeHtml(s) == EscapeChar(s[0]) + EscapeHtml(s[1..])
  {
    assert s == [s[0]] + s[1..];
    EscapeHtmlAppend([s[0]], s[1..]);
    EscapeHtmlChar(s[0]);
  }

  /** Concatenating two escaped strings gives an escaped string. */
  lemma EscapedAppend(a: string, b: string)
    requires Escaped(a) && Escaped(b)
    ensures Escaped(a + b)
  {
    var s := a + b;
    forall i | 0 <= i < |s| && s[i] == '&' ensures EntityAt(s, i) {
      if i < |a| {
        assert EntityAt(a, i);
        assert s[i..] == a[i..] + b;
      } else {
        assert s[i] == b[i - |a|];
        assert EntityAt(b, i - |a|);
        assert s[i..] == b[i - |a|..];
      }
    }
  }

  /** A string that starts with an entity and has no other `&` or special character is escaped. */
  lemma EscapedEntity(e: string)
    requires |e| >= 1 && e[0] == '&' && EntityAt(e, 0)
    requires '&' !in e[1..] && '<' !in e && '>' !in e && '"' !in e
    ensures Escaped(e)
  {
    forall i | 0 <= i < |e| && e[i] == '&' ensures EntityAt(e, i) {
      if i > 0 {
        assert false;
      }
    }
  }

  /** The escape of one character is escaped text. */
  lemma EscapeCharEscaped(c: char)
    ensures Escaped(EscapeChar(c))
  {
    var e := EscapeChar(c);
    if c == '&' {
      assert e[1..] == "amp;";
      EscapedEntity(e);
    } else if c == '<' {
      assert e[1..] == "lt;";
      EscapedEntity(e);
    } else if c == '>' {
      assert e[1..] == "gt;";
      EscapedEntity(e);
    } else if c == '"' {
      assert e[1..] == "quot;";
      EscapedEntity(e);
    }
  }

  /**
   * The output of `escapeHtml` contains no `<`, `>` or `"`, and every `&`
   * in it begins `&amp;`, `&lt;`, `&gt;` or `&quot;`.
   */
  lemma {:induction false} EscapeHtmlIsEscaped(s: string)
    ensures Escaped(EscapeHtml(s))
  {
    if s == [] {
    } else {
      EscapeHtmlCons(s);
      EscapeCharEscaped(s[0]);
      EscapeHtmlIsEscaped(s[1..]);
      EscapedAppend(EscapeChar(s[0]), EscapeHtml(s[1..]));
    }
  }

  /** Decoding of the four entities: the inverse of `escapeHtml`. */
  function Unescape(s: string): string
    decreases |s|
  {
    if s == [] then []
    else if StartsWith(s, "&amp;") then "&" + Unescape(s[5..])
    else if StartsWith(s, "&lt;") then "<" + Unescape(s[4..])
    else if StartsWith(s, "&gt;") then ">" + Unescape(s[4..])
    else if StartsWith(s, "&quot;") then "\"" + Unescape(s[6..])
    else [s[0]] + Unescape(s[1..])
  }

  /** Decoding an entity followed by anything gives its character back first. */
  lemma UnescapeEntity(e: string, c: char, rest: string)
    requires (e, c) in {("&amp;", '&'), ("&lt;", '<'), ("&gt;", '>'), ("&quot;", '"')}
    ensures Unescape(e + rest) == [c] + Unescape(rest)
  {
    var s := e + rest;
    assert s[..|e|] == e && s[|e|..] == rest;
    assert s[1] == e[1];
  }

  /** Decoding the escape of one character followed by anything gives that character back first. */
  lemma UnescapeChar(c: char, rest: string)
    ensures Unescape(EscapeChar(c) + rest) == [c] + Unescape(rest)
  {
    if c == '&' || c == '<' || c == '>' || c == '"' {
      UnescapeEntity(EscapeChar(c), c, rest);
    } else {
      var s := [c] + rest;
      assert s[0] == c && s[1..] == rest;
      StartsWithHead(s, "&amp;");
      StartsWithHead(s, "&lt;");
      StartsWithHead(s, "&gt;");
      StartsWithHead(s, "&quot;");
    }
  }

  /** Escaping loses nothing: decoding the entities gives back the original text. */
  lemma {:induction false} UnescapeEscapeHtml(s: string)
    ensures Unescape(EscapeHtml(s)) == s
  {
    if s != [] {
      EscapeHtmlCons(s);
      UnescapeChar(s[0], EscapeHtml(s[1..]));
      UnescapeEscapeHtml(s[1..]);
    }
  }

  // ---------------------------------------------------------------------
  // The document tree
  // ---------------------------------------------------------------------

  /** The mark types the renderer knows; any other `type` string is `OtherMark`. */
  datatype MarkType = Bold | Italic | Underline | Strike | Code | Link | TextStyle | Highlight | OtherMark

  /** A mark on a text node: its type and the attributes the renderer reads. */
  datatype Mark = Mark(kind: MarkType, href: Option<string>, target: Option<string>, color: Option<string>)

  /** The node attributes the renderer reads; an absent attribute is `None`. */
  datatype NodeAttrs = NodeAttrs(
    level: Option<int>, start: Option<int>,
    src: Option<string>, alt: Option<string>, title: Option<string>,
    checked: Option<bool>)

  /** The `type` string of each known mark type. */
  function MarkTypeName(k: MarkType): string
    requires k != OtherMark
  {
    match k
    case Bold => "bold"
    case Italic => "italic"
    case Underline => "underline"
    case Strike => "strike"
    case Code => "code"
    case Link => "link"
    case TextStyle => "textStyle"
    case Highlight => "highlight"
  }

  /** How the mark loop's `switch` classifies a mark's `type` string. */
  function MarkTypeOf(t: string): MarkType {
    match t
    case "bold" => Bold
    case "italic" => Italic
    case "underline" => Underline
    case "strike" => Strike
    case "code" => Code
    case "link" => Link
    case "textStyle" => TextStyle
    case "highlight" => Highlight
    case _ => OtherMark
  }

  /** The `type` string of each known node type. */
  function NodeTypeName(k: NodeType): string
    requires k != OtherNode
  {
    match k
    case TextNode => "text"
    case Paragraph => "paragraph"
    case Heading => "heading"
    case Blockquote => "blockquote"
    case BulletList => "bulletList"
    case OrderedList => "orderedList"
    case ListItem => "listItem"
    case CodeBlock => "codeBlock"
    case HorizontalRule => "horizontalRule"
    case HardBreak => "hardBreak"
    case Image => "image"
    case TaskList => "taskList"
    case TaskItem => "taskItem"
    case Doc => "doc"
  }

  /** How `nodeToHtml`'s `switch` (and the `doc` check) classifies a node's `type` string. */
  function NodeTypeOf(t: string): NodeType {
    match t
    case "text" => TextNode
    case "paragraph" => Paragraph
    case "heading" => Heading
    case "blockquote" => Blockquote
    case "bulletList" => BulletList
    case "orderedList" => OrderedList
    case "listItem" => ListItem
    case "codeBlock" => CodeBlock
    case "horizontalRule" => HorizontalRule
    case "hardBreak" => HardBreak
    case "image" => Image
    case "taskList" => TaskList
    case "taskItem" => TaskItem
    case "doc" => Doc
    case _ => OtherNode
  }

  /** Each known type is recognised by its own name, so the classification loses nothing. */
  lemma TypeNamesRecognised(m: MarkType, k: NodeType)
    ensures m != OtherMark ==> MarkTypeOf(MarkTypeName(m)) == m
    ensures k != OtherNode ==> NodeTypeOf(NodeTypeName(k)) == k
  {
  }

  /** A node's `content` array, which may be absent. */
  datatype Content = Missing | Nodes(items: seq<Node>)

  /**
   * The node types the renderer knows, and the root type `doc`; any other
   * `type` string is `OtherNode` (the renderer never reads it).
   */
  datatype NodeType =
    | TextNode | Paragraph | Heading | Blockquote | BulletList | OrderedList | ListItem | CodeBlock
    | HorizontalRule | HardBreak | Image | TaskList | TaskItem | Doc | OtherNode

  /** A node of the editor's document: type, children, text, attributes and marks (absent marks are the empty list). */
  datatype Node = Node(kind: NodeType, content: Content, text: Option<string>, attrs: NodeAttrs, marks: seq<Mark>)

  const NoAttrs := NodeAttrs(None, None, None, None, None, None)

  /** `node.content ?? []`. */
  function Kids(n: Node): seq<Node> {
    match n.content
    case Missing => []
    case Nodes(items) => items
  }

  // ---------------------------------------------------------------------
  // Markup built by the renderer
  // ---------------------------------------------------------------------

  /** `<tag attrs>inner</tag>`. */
  function Element(tag: string, attrs: string, inner: string): string {
    "<" + tag + attrs + ">" + inner + "</" + tag + ">"
  }

  /** `<tag attrs />`. */
  function VoidElement(tag: string, attrs: string): string {
    "<" + tag + attrs + " />"
  }

  /** ` name="value"` with the value as given: the shape of every attribute the renderer writes. */
  function RawAttr(name: string, value: string): string {
    " " + name + "=\"" + value + "\""
  }

  /** A raw attribute holds `<` or `>` only when its name or value does. */
  lemma RawAttrNoAngle(name: string, value: string)
    requires '<' !in name && '>' !in name && '<' !in value && '>' !in value
    ensures '<' !in RawAttr(name, value) && '>' !in RawAttr(name, value)
  {
  }

  /** ` name="value"`, the value escaped. */
  function Attr(name: string, value: string): string {
    " " + name + "=\"" + EscapeHtml(value) + "\""
  }

  /** The elements the renderer can emit. */
  const ElementNames: set<string> := {
    "p", "h1", "h2", "h3", "h4", "h5", "h6", "blockquote", "ul", "ol", "li",
    "pre", "code", "hr", "br", "img", "strong", "em", "u", "s", "a", "span", "mark"
  }

  /** `t` starts with an opening or closing tag of element `name`. */
  predicate TagOf(t: string, name: string) {
    StartsWith(t, "<" + name + ">") || StartsWith(t, "<" + name + " ") || StartsWith(t, "</" + name + ">")
  }

  /**
   * Every `<` in `s` begins an opening or closing tag of one of the
   * renderer's own elements: the text and attribute values it copied from
   * the document cannot open an element of their own.
   */
  predicate Markup(s: string) {
    forall i :: 0 <= i < |s| && s[i] == '<' ==> OpensTag(s[i..])
  }

  /** `t` starts with a tag of one of the renderer's elements. */
  predicate OpensTag(t: string) {
    exists name :: name in ElementNames && TagOf(t, name)
  }

  lemma NoLtMarkup(s: string)
    requires '<' !in s
    ensures Markup(s)
  {
  }

  lemma EscapedMarkup(s: string)
    ensures '<' !in EscapeHtml(s) && Markup(EscapeHtml(s))
  {
    EscapeHtmlIsEscaped(s);
  }

  /** A tag at the start of a string is still there when more follows. */
  lemma TagOfAppend(t: string, rest: string, name: string)
    requires TagOf(t, name)
    ensures TagOf(t + rest, name)
  {
    var s := t + rest;
    forall p: string | StartsWith(t, p) ensures StartsWith(s, p) {
      assert s[..|p|] == t[..|p|];
    }
  }

  /** Concatenating markup gives markup. */
  lemma MarkupAppend(a: string, b: string)
    requires Markup(a) && Markup(b)
    ensures Markup(a + b)
  {
    var s := a + b;
    forall i | 0 <= i < |s| && s[i] == '<' ensures OpensTag(s[i..]) {
      if i < |a| {
        assert a[i] == '<';
        var name :| name in ElementNames && TagOf(a[i..], name);
        assert s[i..] == a[i..] + b;
        TagOfAppend(a[i..], b, name);
      } else {
        assert b[i - |a|] == '<';
        assert s[i..] == b[i - |a|..];
      }
    }
  }

  /** `<name` followed by `>` or a space and no further `<` is markup. */
  lemma OpenTagMarkup(name: string, rest: string)
    requires name in ElementNames && '<' !in name
    requires rest != [] && (rest[0] == '>' || rest[0] == ' ') && '<' !in rest
    ensures Markup("<" + name + rest)
  {
    var s := "<" + name + rest;
    assert s[..|name| + 2] == "<" + name + [rest[0]];
    forall i | 0 <= i < |s| && s[i] == '<' ensures OpensTag(s[i..]) {
      if i == 0 {
        assert s[i..] == s;
        assert TagOf(s, name);
      }
    }
  }

  /** `</name>` is markup. */
  lemma CloseTagMarkup(name: string)
    requires name in ElementNames && '<' !in name
    ensures Markup("</" + name + ">")
  {
    var s := "</" + name + ">";
    forall i | 0 <= i < |s| && s[i] == '<' ensures OpensTag(s[i..]) {
      if i == 0 {
        assert s[i..] == s;
        assert TagOf(s, name);
      }
    }
  }

  /** An element with a known name, attributes free of `<` and markup inside is markup. */
  lemma ElementMarkup(tag: string, attrs: string, inner: string)
    requires tag in ElementNames && '<' !in tag
    requires attrs == [] || attrs[0] == ' '
    requires '<' !in attrs && Markup(inner)
    ensures Markup(Element(tag, attrs, inner))
  {
    var open, close := "<" + tag + (attrs + ">"), "</" + tag + ">";
    assert Element(tag, attrs, inner) == open + inner + close;
    OpenTagMarkup(tag, attrs + ">");
    CloseTagMarkup(tag);
    MarkupAppend(open, inner);
    MarkupAppend(open + inner, close);
  }

  /** A void element with a known name and attributes free of `<` is markup. */
  lemma VoidElementMarkup(tag: string, attrs: string)
    requires tag in ElementNames && '<' !in tag
    requires attrs == [] || attrs[0] == ' '
    requires '<' !in attrs
    ensures Markup(VoidElement(tag, attrs))
  {
    OpenTagMarkup(tag, attrs + " />");
    assert "<" + tag + attrs + " />" == "<" + tag + (attrs + " />");
  }

  /** An attribute never contains `<`: its value is escaped. */
  lemma AttrNoLt(name: string, value: string)
    requires '<' !in name
    ensures '<' !in Attr(name, value)
  {
    EscapedMarkup(value);
  }

  // ---------------------------------------------------------------------
  // Marks
  // ---------------------------------------------------------------------

  /** JavaScript truthiness of an optional string: present and non-empty. */
  predicate Truthy(o: Option<string>) {
    o.Some? && o.value != ""
  }

  /** The attributes of a link mark: `href` (default `#`) and, when truthy, `target`. */
  function LinkAttrs(m: Mark): string {
    Attr("href", m.href.GetOr("#")) + (if Truthy(m.target) then Attr("target", m.target.value) else "")
  }

  /** One pass of the mark loop: wraps `out` in the element of mark `m`, or leaves it alone. */
  function WrapMark(out: string, m: Mark): string {
    match m.kind
    case Bold => Element("strong", "", out)
    case Italic => Element("em", "", out)
    case Underline => Element("u", "", out)
    case Strike => Element("s", "", out)
    case Code => Element("code", "", out)
    case Link => Element("a", LinkAttrs(m), out)
    case TextStyle =>
      if Truthy(m.color) then Element("span", RawAttr("style", "color: " + EscapeHtml(m.color.value)), out) else out
    case Highlight => Element("mark", "", out)
    case _ => out
  }

  /** The marks applied in list order to `out`: the first mark ends up innermost. */
  function WrapMarks(out: string, marks: seq<Mark>): string
    decreases |marks|
  {
    if marks == [] then out else WrapMark(WrapMarks(out, marks[..|marks| - 1]), marks[|marks| - 1])
  }

  /** Marks apply in list order: the first one is innermost, and the rest wrap around it. */
  lemma {:induction false} WrapMarksCons(out: string, m: Mark, rest: seq<Mark>)
    ensures WrapMarks(out, [m] + rest) == WrapMarks(WrapMark(out, m), rest)
    decreases |rest|
  {
    var all := [m] + rest;
    if rest != [] {
      assert all[..|all| - 1] == [m] + rest[..|rest| - 1];
      assert all[|all| - 1] == rest[|rest| - 1];
      WrapMarksCons(out, m, rest[..|rest| - 1]);
    } else {
      assert all[..0] == [];
    }
  }

  /** A mark of an unknown type, and a `textStyle` mark without a colour, leave the text as it is. */
  lemma InertMark(out: string, m: Mark)
    requires m.kind == OtherMark || (m.kind == TextStyle && !Truthy(m.color))
    ensures WrapMark(out, m) == out
  {
  }

  /** A link without an `href` points at `#`; a falsy `target` adds no attribute. */
  lemma LinkDefaults(out: string, m: Mark)
    requires m.kind == Link && m.href == None && !Truthy(m.target)
    ensures WrapMark(out, m) == "<a href=\"#\">" + out + "</a>"
  {
    assert EscapeHtml("#") == "#" by {
      ReplaceAllSingle('#', '&', "&amp;");
      ReplaceAllSingle('#', '<', "&lt;");
      ReplaceAllSingle('#', '>', "&gt;");
      ReplaceAllSingle('#', '"', "&quot;");
    }
  }

  lemma WrapMarkMarkup(out: string, m: Mark)
    requires Markup(out)
    ensures Markup(WrapMark(out, m))
  {
    match m.kind
    case Link =>
      AttrNoLt("href", m.href.GetOr("#"));
      if Truthy(m.target) { AttrNoLt("target", m.target.value); }
      ElementMarkup("a", LinkAttrs(m), out);
    case TextStyle =>
      if Truthy(m.color) {
        var style := "color: " + EscapeHtml(m.color.value);
        EscapeHtmlIsEscaped(m.color.value);
        RawAttrNoAngle("style", style);
        ElementMarkup("span", RawAttr("style", style), out);
      }
    case Bold => ElementMarkup("strong", "", out);
    case Italic => ElementMarkup("em", "", out);
    case Underline => ElementMarkup("u", "", out);
    case Strike => ElementMarkup("s", "", out);
    case Code => ElementMarkup("code", "", out);
    case Highlight => ElementMarkup("mark", "", out);
    case _ =>
  }

  /** Wrapping markup in any marks gives markup. */
  lemma {:induction false} WrapMarksMarkup(out: string, marks: seq<Mark>)
    requires Markup(out)
    ensures Markup(WrapMarks(out, marks))
    decreases |marks|
  {
    if marks != [] {
      WrapMarksMarkup(out, marks[..|marks| - 1]);
      WrapMarkMarkup(WrapMarks(out, marks[..|marks| - 1]), marks[|marks| - 1]);
    }
  }

  /** `renderMarks`: the escaped text, wrapped by each mark in turn. */
  method RenderMarks(text: string, marks: seq<Mark>) returns (out: string)
    ensures out == WrapMarks(EscapeHtml(text), marks)
    ensures Markup(out)
  {
    if |marks| == 0 {
      out := EscapeHtml(text);
      EscapedMarkup(text);
      WrapMarksMarkup(EscapeHtml(text), marks);
      return;
    }
    out := EscapeHtml(text);
    for i := 0 to |marks|
      invariant out == WrapMarks(EscapeHtml(text), marks[..i])
    {
      assert marks[..i + 1][..i] == marks[..i];
      out := WrapMark(out, marks[i]);
    }
    assert marks[..|marks|] == marks;
    EscapedMarkup(text);
    WrapMarksMarkup(EscapeHtml(text), marks);
  }

  // ---------------------------------------------------------------------
  // Nodes
  // ---------------------------------------------------------------------

  /** `Math.min(6, Math.max(1, level ?? 1))`. */
  function HeadingLevel(level: Option<int>): (l: int)
    ensures 1 <= l <= 6
    ensures level.Some? && 1 <= level.value <= 6 ==> l == level.value
    ensures level.None? ==> l == 1
    ensures level.Some? && level.value < 1 ==> l == 1
    ensures level.Some? && level.value > 6 ==> l == 6
  {
    var x := level.GetOr(1);
    var atLeastOne := if x > 1 then x else 1;
    if atLeastOne < 6 then atLeastOne else 6
  }

  /** The ` start="n"` attribute of an ordered list, present only when the start is not 1. */
  function StartAttr(start: Option<int>): string {
    var n := start.GetOr(1);
    if n != 1 then " start=\"" + IntToDecimal(n) + "\"" else ""
  }

  /** The attributes of an image: escaped `src` and `alt`, a `title` only when it is non-empty, lazy loading. */
  function ImageAttrs(a: NodeAttrs): string {
    var title := a.title.GetOr("");
    Attr("src", a.src.GetOr("")) + Attr("alt", a.alt.GetOr(""))
      + (if title != "" then Attr("title", title) else "") + RawAttr("loading", "lazy")
  }

  /** The attributes of a task item: its type, and `data-checked` only when `checked` is exactly `true`. */
  function TaskItemAttrs(a: NodeAttrs): string {
    RawAttr("data-type", "taskItem") + (if a.checked == Some(true) then RawAttr("data-checked", "true") else "")
  }

  /** The attribute of a task list. */
  const TaskListAttrs := RawAttr("data-type", "taskList")

  /** The list attributes open with a space (or are empty) and hold neither `<` nor `>`. */
  lemma StartAttrNoAngle(start: Option<int>)
    ensures var s := StartAttr(start); (s == [] || s[0] == ' ') && '<' !in s && '>' !in s
  {
    DecimalNoAngle(start.GetOr(1));
  }

  lemma TaskItemAttrsNoAngle(a: NodeAttrs)
    ensures var s := TaskItemAttrs(a); s[0] == ' ' && '<' !in s && '>' !in s
  {
    var head, checked := RawAttr("data-type", "taskItem"), RawAttr("data-checked", "true");
    assert '<' !in head && '>' !in head;
    assert '<' !in checked && '>' !in checked;
    assert TaskItemAttrs(a) == head + (if a.checked == Some(true) then checked else "");
  }

  lemma TaskListAttrsNoAngle()
    ensures TaskListAttrs[0] == ' ' && '<' !in TaskListAttrs && '>' !in TaskListAttrs
  {
  }

  /** `nodeToHtml`. */
  function NodeToHtml(n: Node): string
    decreases n, 1
  {
    match n.kind
    case TextNode => WrapMarks(EscapeHtml(n.text.GetOr("")), n.marks)
    case Paragraph => Element("p", "", ChildrenHtml(n, 0))
    case Heading => Element(HeadingTag(n.attrs.level), "", ChildrenHtml(n, 0))
    case Blockquote => Element("blockquote", "", ChildrenHtml(n, 0))
    case BulletList => Element("ul", "", ChildrenHtml(n, 0))
    case OrderedList => Element("ol", StartAttr(n.attrs.start), ChildrenHtml(n, 0))
    case ListItem => Element("li", "", ChildrenHtml(n, 0))
    case CodeBlock => Element("pre", "", Element("code", "", ChildrenHtml(n, 0)))
    case HorizontalRule => VoidElement("hr", "")
    case HardBreak => VoidElement("br", "")
    case Image => if n.attrs.src.GetOr("") == "" then "" else VoidElement("img", ImageAttrs(n.attrs))
    case TaskList => Element("ul", TaskListAttrs, ChildrenHtml(n, 0))
    case TaskItem => Element("li", TaskItemAttrs(n.attrs), ChildrenHtml(n, 0))
    case _ => if n.content.Nodes? then ChildrenHtml(n, 0) else ""
  }

  /** `(node.content ?? []).map(nodeToHtml).join("")`, from the `i`-th child on. */
  function ChildrenHtml(n: Node, i: nat): string
    requires i <= |Kids(n)|
    decreases n, 0, |Kids(n)| - i
  {
    if i == |Kids(n)| then "" else NodeToHtml(Kids(n)[i]) + ChildrenHtml(n, i + 1)
  }

  /** `h${level}`: the tag of a heading of the given (clamped) level, one of `h1` to `h6`. */
  function HeadingTag(level: Option<int>): string {
    "h" + IntToDecimal(HeadingLevel(level))
  }

  lemma HeadingTagName(l: int)
    requires 1 <= l <= 6
    ensures var tag := "h" + IntToDecimal(l);
            tag in ElementNames && '<' !in tag && '>' !in tag
  {
    var d := IntToDecimal(l);
    assert d == [DigitChar(l)];
    if l == 1 { assert "h" + d == "h1"; }
    else if l == 2 { assert "h" + d == "h2"; }
    else if l == 3 { assert "h" + d == "h3"; }
    else if l == 4 { assert "h" + d == "h4"; }
    else if l == 5 { assert "h" + d == "h5"; }
    else { assert "h" + d == "h6"; }
  }

  /** A numeral contains no `<` and no `>`. */
  lemma DecimalNoAngle(n: int)
    ensures '<' !in IntToDecimal(n) && '>' !in IntToDecimal(n)
  {
    var d := IntToDecimal(n);
    if n < 0 {
      assert forall i :: 1 <= i < |d| ==> d[i] == NatToDecimal(-n)[i - 1];
    }
  }

  /** Text nodes, rules, breaks and images render as markup. */
  lemma LeafMarkup(n: Node)
    requires n.kind in {TextNode, HorizontalRule, HardBreak, Image}
    ensures Markup(NodeToHtml(n))
  {
    match n.kind
    case TextNode => TextNodeMarkup(n.text.GetOr(""), n.marks);
    case HorizontalRule => VoidElementMarkup("hr", "");
    case HardBreak => VoidElementMarkup("br", "");
    case Image => ImageNodeMarkup(n);
  }

  lemma ImageNodeMarkup(n: Node)
    requires n.kind == Image
    ensures Markup(NodeToHtml(n))
  {
    if n.attrs.src.GetOr("") == "" {
      NoLtMarkup("");
    } else {
      ImageMarkup(n.attrs);
    }
  }

  lemma TextNodeMarkup(t: string, marks: seq<Mark>)
    ensures Markup(WrapMarks(EscapeHtml(t), marks))
  {
    EscapedMarkup(t);
    WrapMarksMarkup(EscapeHtml(t), marks);
  }

  lemma ImageMarkup(a: NodeAttrs)
    ensures Markup(VoidElement("img", ImageAttrs(a)))
  {
    AttrNoLt("src", a.src.GetOr(""));
    AttrNoLt("alt", a.alt.GetOr(""));
    AttrNoLt("title", a.title.GetOr(""));
    VoidElementMarkup("img", ImageAttrs(a));
  }

  /** A node rendered as one element around its children's markup is markup. */
  lemma ElementNodeMarkup(n: Node, tag: string, attrs: string)
    requires NodeToHtml(n) == Element(tag, attrs, ChildrenHtml(n, 0))
    requires tag in ElementNames && '<' !in tag
    requires (attrs == [] || attrs[0] == ' ') && '<' !in attrs
    requires Markup(ChildrenHtml(n, 0))
    ensures Markup(NodeToHtml(n))
  {
    ElementMarkup(tag, attrs, ChildrenHtml(n, 0));
  }

  /** A paragraph, heading, quote or bullet list around markup is markup. */
  lemma BlockMarkup(n: Node)
    requires n.kind in {Paragraph, Heading, Blockquote, BulletList}
    requires Markup(ChildrenHtml(n, 0))
    ensures Markup(NodeToHtml(n))
  {
    match n.kind
    case Paragraph => ElementNodeMarkup(n, "p", "");
    case Heading =>
      HeadingTagName(HeadingLevel(n.attrs.level));
      ElementNodeMarkup(n, HeadingTag(n.attrs.level), "");
    case Blockquote => ElementNodeMarkup(n, "blockquote", "");
    case BulletList => ElementNodeMarkup(n, "ul", "");
  }

  /** An ordered list, list item, task list or task item around markup is markup. */
  lemma ListMarkup(n: Node)
    requires n.kind in {OrderedList, ListItem, TaskList, TaskItem}
    requires Markup(ChildrenHtml(n, 0))
    ensures Markup(NodeToHtml(n))
  {
    match n.kind
    case OrderedList =>
      StartAttrNoAngle(n.attrs.start);
      ElementNodeMarkup(n, "ol", StartAttr(n.attrs.start));
    case ListItem => ElementNodeMarkup(n, "li", "");
    case TaskList =>
      TaskListAttrsNoAngle();
      ElementNodeMarkup(n, "ul", TaskListAttrs);
    case TaskItem =>
      TaskItemAttrsNoAngle(n.attrs);
      ElementNodeMarkup(n, "li", TaskItemAttrs(n.attrs));
  }

  /**
   * The renderer's output is markup: every `<` in it opens or closes one
   * of its own elements, whatever text and attributes the document holds.
   */
  lemma {:induction false} NodeMarkup(n: Node)
    ensures Markup(NodeToHtml(n))
    decreases n, 1
  {
    var inner := ChildrenHtml(n, 0);
    ChildrenMarkup(n, 0);
    if n.kind in {TextNode, HorizontalRule, HardBreak, Image} {
      LeafMarkup(n);
    } else if n.kind in {Paragraph, Heading, Blockquote, BulletList} {
      BlockMarkup(n);
    } else if n.kind in {OrderedList, ListItem, TaskList, TaskItem} {
      ListMarkup(n);
    } else if n.kind == CodeBlock {
      ElementMarkup("code", "", inner);
      ElementMarkup("pre", "", Element("code", "", inner));
    }
  }

  lemma {:induction false} ChildrenMarkup(n: Node, i: nat)
    requires i <= |Kids(n)|
    ensures Markup(ChildrenHtml(n, i))
    decreases n, 0, |Kids(n)| - i
  {
    if i < |Kids(n)| {
      NodeMarkup(Kids(n)[i]);
      ChildrenMarkup(n, i + 1);
      MarkupAppend(NodeToHtml(Kids(n)[i]), ChildrenHtml(n, i + 1));
    }
  }

  // ---------------------------------------------------------------------
  // The text a reader sees
  // ---------------------------------------------------------------------

  /** The position of the first `c` in `s`, or `|s|` when there is none. */
  function IndexOf(s: string, c: char): (k: nat)
    ensures k <= |s|
    ensures k < |s| ==> s[k] == c
  {
    if s == [] || s[0] == c then 0 else 1 + IndexOf(s[1..], c)
  }

  /** No `c` comes before the position `IndexOf` finds. */
  lemma {:induction false} IndexOfFirst(s: string, c: char)
    ensures forall j :: 0 <= j < IndexOf(s, c) ==> s[j] != c
  {
    if s != [] && s[0] != c {
      IndexOfFirst(s[1..], c);
      assert forall j :: 1 <= j < IndexOf(s, c) ==> s[j] == s[1..][j - 1];
    }
  }

  /**
   * The characters of markup outside its tags, where a tag runs from `<` to
   * the next `>` (an unclosed tag hides everything after it).
   */
  function StripTags(s: string): string
    decreases |s|
  {
    if s == [] then []
    else if s[0] == '<' then
      var k := IndexOf(s, '>');
      if k == |s| then [] else StripTags(s[k + 1..])
    else [s[0]] + StripTags(s[1..])
  }

  /** Every tag of `s` is closed by a `>`. */
  predicate Closed(s: string)
    decreases |s|
  {
    if s == [] then true
    else if s[0] == '<' then
      var k := IndexOf(s, '>');
      k < |s| && Closed(s[k + 1..])
    else Closed(s[1..])
  }

  /** A character found in `a` is found at the same place in `a + b`. */
  lemma IndexOfPrefix(a: string, b: string, c: char)
    requires IndexOf(a, c) < |a|
    ensures IndexOf(a + b, c) == IndexOf(a, c)
  {
    var s := a + b;
    var k := IndexOf(a, c);
    IndexOfFirst(a, c);
    IndexOfFirst(s, c);
    assert s[k] == c;
    assert forall j :: 0 <= j < k ==> s[j] == a[j];
  }

  /** After markup whose tags are all closed, text outside tags is read independently. */
  lemma {:induction false} StripAppend(a: string, b: string)
    requires Closed(a)
    ensures StripTags(a + b) == StripTags(a) + StripTags(b)
    ensures Closed(b) ==> Closed(a + b)
    decreases |a|
  {
    var s := a + b;
    if a == [] {
      assert s == b;
    } else if a[0] == '<' {
      var k := IndexOf(a, '>');
      IndexOfPrefix(a, b, '>');
      assert s[k + 1..] == a[k + 1..] + b;
      StripAppend(a[k + 1..], b);
    } else {
      assert s[0] == a[0] && s[1..] == a[1..] + b;
      StripAppend(a[1..], b);
    }
  }

  /** Text without `<` is shown as it is. */
  lemma {:induction false} StripPlain(x: string)
    requires '<' !in x
    ensures StripTags(x) == x && Closed(x)
    decreases |x|
  {
    if x != [] {
      assert x == [x[0]] + x[1..];
      StripPlain(x[1..]);
    }
  }

  /** A single tag `<body>` shows nothing. */
  lemma StripTag(body: string)
    requires '>' !in body
    ensures StripTags("<" + body + ">") == [] && Closed("<" + body + ">")
  {
    var t := "<" + body + ">";
    assert t[|body| + 1] == '>';
    IndexOfFirst(t, '>');
    assert IndexOf(t, '>') == |body| + 1;
    assert t[|body| + 2..] == [];
  }

  /** An element shows what its content shows. */
  lemma StripElement(tag: string, attrs: string, inner: string)
    requires '>' !in tag && '>' !in attrs && Closed(inner)
    ensures StripTags(Element(tag, attrs, inner)) == StripTags(inner)
    ensures Closed(Element(tag, attrs, inner))
  {
    var open, close := "<" + (tag + attrs) + ">", "<" + ("/" + tag) + ">";
    assert Element(tag, attrs, inner) == open + (inner + close);
    StripTag(tag + attrs);
    StripTag("/" + tag);
    StripAppend(inner, close);
    StripAppend(open, inner + close);
  }

  /** A void element shows nothing. */
  lemma StripVoidElement(tag: string, attrs: string)
    requires '>' !in tag && '>' !in attrs
    ensures StripTags(VoidElement(tag, attrs)) == [] && Closed(VoidElement(tag, attrs))
  {
    assert VoidElement(tag, attrs) == "<" + (tag + attrs + " /") + ">";
    StripTag(tag + attrs + " /");
  }

  /** An attribute never contains `<` or `>`: its value is escaped. */
  lemma AttrNoAngle(name: string, value: string)
    requires '<' !in name && '>' !in name
    ensures '<' !in Attr(name, value) && '>' !in Attr(name, value)
  {
    EscapeHtmlIsEscaped(value);
  }

  /** Marks change the tags around a text, never the text shown. */
  lemma WrapMarkText(out: string, m: Mark)
    requires Closed(out)
    ensures StripTags(WrapMark(out, m)) == StripTags(out) && Closed(WrapMark(out, m))
  {
    match m.kind
    case Link =>
      AttrNoAngle("href", m.href.GetOr("#"));
      if Truthy(m.target) { AttrNoAngle("target", m.target.value); }
      StripElement("a", LinkAttrs(m), out);
    case TextStyle =>
      if Truthy(m.color) {
        var style := "color: " + EscapeHtml(m.color.value);
        EscapeHtmlIsEscaped(m.color.value);
        RawAttrNoAngle("style", style);
        StripElement("span", RawAttr("style", style), out);
      }
    case Bold => StripElement("strong", "", out);
    case Italic => StripElement("em", "", out);
    case Underline => StripElement("u", "", out);
    case Strike => StripElement("s", "", out);
    case Code => StripElement("code", "", out);
    case Highlight => StripElement("mark", "", out);
    case _ =>
  }

  lemma {:induction false} WrapMarksText(out: string, marks: seq<Mark>)
    requires Closed(out)
    ensures StripTags(WrapMarks(out, marks)) == StripTags(out) && Closed(WrapMarks(out, marks))
    decreases |marks|
  {
    if marks != [] {
      WrapMarksText(out, marks[..|marks| - 1]);
      WrapMarkText(WrapMarks(out, marks[..|marks| - 1]), marks[|marks| - 1]);
    }
  }

  /**
   * The text of a document as a reader sees it: the text of its text nodes
   * in document order; rules, breaks and images contribute none.
   */
  function TextContent(n: Node): string
    decreases n, 1
  {
    match n.kind
    case TextNode => n.text.GetOr("")
    case HorizontalRule => ""
    case HardBreak => ""
    case Image => ""
    case _ => ChildrenText(n, 0)
  }

  /** The text of the children from the `i`-th on. */
  function ChildrenText(n: Node, i: nat): string
    requires i <= |Kids(n)|
    decreases n, 0, |Kids(n)| - i
  {
    if i == |Kids(n)| then "" else TextContent(Kids(n)[i]) + ChildrenText(n, i + 1)
  }

  lemma TextNodeText(t: string, marks: seq<Mark>)
    ensures StripTags(WrapMarks(EscapeHtml(t), marks)) == EscapeHtml(t)
    ensures Closed(WrapMarks(EscapeHtml(t), marks))
  {
    EscapeHtmlIsEscaped(t);
    StripPlain(EscapeHtml(t));
    WrapMarksText(EscapeHtml(t), marks);
  }

  lemma ImageText(a: NodeAttrs)
    ensures StripTags(VoidElement("img", ImageAttrs(a))) == [] && Closed(VoidElement("img", ImageAttrs(a)))
  {
    ImageAttrsNoAngle(a);
    StripVoidElement("img", ImageAttrs(a));
  }

  /** An image's attribute list holds no angle bracket. */
  lemma ImageAttrsNoAngle(a: NodeAttrs)
    ensures '<' !in ImageAttrs(a) && '>' !in ImageAttrs(a)
  {
    var title := a.title.GetOr("");
    AttrNoAngle("src", a.src.GetOr(""));
    AttrNoAngle("alt", a.alt.GetOr(""));
    AttrNoAngle("title", title);
    RawAttrNoAngle("loading", "lazy");
    var t := if title != "" then Attr("title", title) else "";
    assert '>' !in t && '<' !in t;
    assert ImageAttrs(a) == Attr("src", a.src.GetOr("")) + Attr("alt", a.alt.GetOr("")) + t + RawAttr("loading", "lazy");
  }

  /** A node rendered as one element around its children shows what its children show. */
  lemma ElementNodeText(n: Node, tag: string, attrs: string)
    requires NodeToHtml(n) == Element(tag, attrs, ChildrenHtml(n, 0))
    requires TextContent(n) == ChildrenText(n, 0)
    requires '>' !in tag && '>' !in attrs
    requires StripTags(ChildrenHtml(n, 0)) == EscapeHtml(ChildrenText(n, 0)) && Closed(ChildrenHtml(n, 0))
    ensures StripTags(NodeToHtml(n)) == EscapeHtml(TextContent(n)) && Closed(NodeToHtml(n))
  {
    StripElement(tag, attrs, ChildrenHtml(n, 0));
  }

  /** A paragraph, heading, quote or bullet list shows exactly what its children show. */
  lemma BlockText(n: Node)
    requires n.kind in {Paragraph, Heading, Blockquote, BulletList}
    requires StripTags(ChildrenHtml(n, 0)) == EscapeHtml(ChildrenText(n, 0)) && Closed(ChildrenHtml(n, 0))
    ensures StripTags(NodeToHtml(n)) == EscapeHtml(TextContent(n)) && Closed(NodeToHtml(n))
  {
    match n.kind
    case Paragraph => ElementNodeText(n, "p", "");
    case Heading =>
      DecimalNoAngle(HeadingLevel(n.attrs.level));
      ElementNodeText(n, HeadingTag(n.attrs.level), "");
    case Blockquote => ElementNodeText(n, "blockquote", "");
    case BulletList => ElementNodeText(n, "ul", "");
  }

  /** An ordered list or list item shows exactly what its children show. */
  lemma ListText(n: Node)
    requires n.kind in {OrderedList, ListItem}
    requires StripTags(ChildrenHtml(n, 0)) == EscapeHtml(ChildrenText(n, 0)) && Closed(ChildrenHtml(n, 0))
    ensures StripTags(NodeToHtml(n)) == EscapeHtml(TextContent(n)) && Closed(NodeToHtml(n))
  {
    match n.kind
    case OrderedList =>
      StartAttrNoAngle(n.attrs.start);
      ElementNodeText(n, "ol", StartAttr(n.attrs.start));
    case ListItem => ElementNodeText(n, "li", "");
  }

  /** A task list shows exactly what its children show. */
  lemma TaskListText(n: Node)
    requires n.kind == TaskList
    requires StripTags(ChildrenHtml(n, 0)) == EscapeHtml(ChildrenText(n, 0)) && Closed(ChildrenHtml(n, 0))
    ensures StripTags(NodeToHtml(n)) == EscapeHtml(TextContent(n)) && Closed(NodeToHtml(n))
  {
    TaskListAttrsNoAngle();
    ElementNodeText(n, "ul", TaskListAttrs);
  }

  /** A task item shows exactly what its children show. */
  lemma TaskItemText(n: Node)
    requires n.kind == TaskItem
    requires StripTags(ChildrenHtml(n, 0)) == EscapeHtml(ChildrenText(n, 0)) && Closed(ChildrenHtml(n, 0))
    ensures StripTags(NodeToHtml(n)) == EscapeHtml(TextContent(n)) && Closed(NodeToHtml(n))
  {
    TaskItemAttrsNoAngle(n.attrs);
    ElementNodeText(n, "li", TaskItemAttrs(n.attrs));
  }

  /** A code block shows exactly what its children show. */
  lemma CodeBlockText(n: Node)
    requires n.kind == CodeBlock
    requires StripTags(ChildrenHtml(n, 0)) == EscapeHtml(ChildrenText(n, 0)) && Closed(ChildrenHtml(n, 0))
    ensures StripTags(NodeToHtml(n)) == EscapeHtml(TextContent(n)) && Closed(NodeToHtml(n))
  {
    var inner := ChildrenHtml(n, 0);
    StripElement("code", "", inner);
    StripElement("pre", "", Element("code", "", inner));
  }

  /** Text nodes show their escaped text; rules, breaks and images show nothing. */
  lemma LeafText(n: Node)
    requires n.kind in {TextNode, HorizontalRule, HardBreak, Image}
    ensures StripTags(NodeToHtml(n)) == EscapeHtml(TextContent(n)) && Closed(NodeToHtml(n))
  {
    match n.kind
    case TextNode => TextNodeText(n.text.GetOr(""), n.marks);
    case HorizontalRule => StripVoidElement("hr", "");
    case HardBreak => StripVoidElement("br", "");
    case Image => if n.attrs.src.GetOr("") == "" { StripPlain(""); } else { ImageText(n.attrs); }
  }

  /** Outside its tags, the HTML of a node is exactly the escaped text of the node. */
  lemma {:induction false} NodeText(n: Node)
    ensures StripTags(NodeToHtml(n)) == EscapeHtml(TextContent(n))
    ensures Closed(NodeToHtml(n))
    decreases n, 1
  {
    var inner := ChildrenHtml(n, 0);
    ChildrenTextOf(n, 0);
    if n.kind in {TextNode, HorizontalRule, HardBreak, Image} {
      LeafText(n);
    } else if n.kind == CodeBlock {
      CodeBlockText(n);
    } else if n.kind in {Paragraph, Heading, Blockquote, BulletList} {
      BlockText(n);
    } else if n.kind in {OrderedList, ListItem} {
      ListText(n);
    } else if n.kind == TaskList {
      TaskListText(n);
    } else if n.kind == TaskItem {
      TaskItemText(n);
    } else if n.content.Missing? {
      StripPlain("");
    }
  }

  lemma {:induction false} ChildrenTextOf(n: Node, i: nat)
    requires i <= |Kids(n)|
    ensures StripTags(ChildrenHtml(n, i)) == EscapeHtml(ChildrenText(n, i))
    ensures Closed(ChildrenHtml(n, i))
    decreases n, 0, |Kids(n)| - i
  {
    if i == |Kids(n)| {
      StripPlain("");
    } else {
      var k := Kids(n)[i];
      NodeText(k);
      ChildrenTextOf(n, i + 1);
      StripAppend(NodeToHtml(k), ChildrenHtml(n, i + 1));
      EscapeHtmlAppend(TextContent(k), ChildrenText(n, i + 1));
    }
  }

  /** Rendering neither loses nor invents text: the HTML, stripped of tags and decoded, is the document's text. */
  lemma RenderedText(n: Node)
    ensures Unescape(StripTags(NodeToHtml(n))) == TextContent(n)
  {
    NodeText(n);
    UnescapeEscapeHtml(TextContent(n));
  }

  // ---------------------------------------------------------------------
  // Stored content to HTML
  // ---------------------------------------------------------------------

  /** `isLikelyJson`: after trimming, starts with `{` and mentions `"type"` or `'type'`. */
  predicate IsLikelyJson(content: string) {
    var trimmed := Trim(content);
    StartsWith(trimmed, "{") && (Contains(trimmed, "\"type\"") || Contains(trimmed, "'type'"))
  }

  /**
   * `postContentToHtml`. `parse` stands for `JSON.parse` followed by reading
   * the value as a node tree; `None` is a parse that throws.
   */
  function PostContentToHtml(content: Option<string>, parse: string -> Option<Node>): string {
    if content.None? || content.value == "" then ""
    else
      var trimmed := Trim(content.value);
      if !IsLikelyJson(trimmed) then trimmed
      else DocToHtml(trimmed, parse(trimmed))
  }

  /** The JSON branch: the parsed `doc`'s children as HTML, or the trimmed content when there is no such rendering. */
  function DocToHtml(trimmed: string, parsed: Option<Node>): string {
    match parsed
    case None => trimmed
    case Some(doc) =>
      if doc.kind != Doc || doc.content.Missing? then trimmed
      else
        var html := ChildrenHtml(doc, 0);
        if html == "" then trimmed else html
  }

  /** Whether content looks like JSON does not depend on surrounding whitespace. */
  lemma LikelyJsonTrimmed(content: string)
    ensures IsLikelyJson(Trim(content)) == IsLikelyJson(content)
  {
    TrimIdempotent(content);
  }

  /** The result is empty exactly when there is no content or it is all whitespace. */
  lemma PostContentEmpty(content: Option<string>, parse: string -> Option<Node>)
    ensures PostContentToHtml(content, parse) == "" <==> content.None? || Trim(content.value) == ""
  {
    if content.Some? && content.value == "" {
      assert Trim(content.value) == "";
    }
  }

  /** Content that does not look like editor JSON (existing HTML, plain text) is passed through, trimmed. */
  lemma PostContentPassThrough(content: string, parse: string -> Option<Node>)
    requires !IsLikelyJson(content)
    ensures PostContentToHtml(Some(content), parse) == Trim(content)
  {
    LikelyJsonTrimmed(content);
    if content == "" {
      assert Trim(content) == "";
    } else {
      PostContentNotJson(content, parse);
    }
  }

  /** Passing through is idempotent: the output of a pass-through is passed through unchanged. */
  lemma PostContentPassThroughIdempotent(content: string, parse: string -> Option<Node>)
    requires !IsLikelyJson(content)
    ensures var html := PostContentToHtml(Some(content), parse);
            PostContentToHtml(Some(html), parse) == html
  {
    PostContentPassThrough(content, parse);
    LikelyJsonTrimmed(content);
    PostContentPassThrough(Trim(content), parse);
    TrimIdempotent(content);
  }

  /** Content that parses to anything but a `doc` with a `content` array is passed through, trimmed. */
  lemma PostContentNotADoc(content: string, parse: string -> Option<Node>)
    requires content != ""
    requires var parsed := parse(Trim(content)); parsed.None? || parsed.value.kind != Doc || parsed.value.content.Missing?
    ensures PostContentToHtml(Some(content), parse) == Trim(content)
  {
    if IsLikelyJson(Trim(content)) {
      PostContentJson(content, parse);
      DocToHtmlNotADoc(Trim(content), parse(Trim(content)));
    } else {
      PostContentNotJson(content, parse);
    }
  }

  lemma PostContentNotJson(content: string, parse: string -> Option<Node>)
    requires content != "" && !IsLikelyJson(Trim(content))
    ensures PostContentToHtml(Some(content), parse) == Trim(content)
  {
  }

  lemma DocToHtmlNotADoc(trimmed: string, parsed: Option<Node>)
    requires parsed.None? || parsed.value.kind != Doc || parsed.value.content.Missing?
    ensures DocToHtml(trimmed, parsed) == trimmed
  {
  }

  /**
   * A `doc` whose children render to something is shown as that rendering:
   * markup built only from the renderer's own elements, whose text is the
   * document's text.
   */
  lemma PostContentRendered(content: string, parse: string -> Option<Node>, doc: Node)
    requires content != "" && IsLikelyJson(Trim(content))
    requires parse(Trim(content)) == Some(doc) && doc.kind == Doc && doc.content.Nodes?
    requires ChildrenHtml(doc, 0) != ""
    ensures var html := PostContentToHtml(Some(content), parse);
            && html == ChildrenHtml(doc, 0)
            && Markup(html)
            && Unescape(StripTags(html)) == TextContent(doc)
  {
    PostContentDoc(content, parse, doc);
    ChildrenMarkup(doc, 0);
    RenderedDoc(doc);
  }

  /** Content that parses to a `doc` with a `content` array is shown as its children's HTML, unless that is empty. */
  lemma PostContentDoc(content: string, parse: string -> Option<Node>, doc: Node)
    requires content != "" && IsLikelyJson(Trim(content))
    requires parse(Trim(content)) == Some(doc) && doc.kind == Doc && doc.content.Nodes?
    ensures PostContentToHtml(Some(content), parse) == if ChildrenHtml(doc, 0) == "" then Trim(content) else ChildrenHtml(doc, 0)
  {
    PostContentJson(content, parse);
    DocToHtmlOfDoc(Trim(content), doc);
  }

  /** Content that looks like JSON goes to the JSON branch. */
  lemma PostContentJson(content: string, parse: string -> Option<Node>)
    requires content != "" && IsLikelyJson(Trim(content))
    ensures PostContentToHtml(Some(content), parse) == DocToHtml(Trim(content), parse(Trim(content)))
  {
  }

  lemma DocToHtmlOfDoc(trimmed: string, doc: Node)
    requires doc.kind == Doc && doc.content.Nodes?
    ensures DocToHtml(trimmed, Some(doc)) == if ChildrenHtml(doc, 0) == "" then trimmed else ChildrenHtml(doc, 0)
  {
  }

  /** A `doc` node renders as its children, and its text is theirs. */
  lemma RenderedDoc(doc: Node)
    requires doc.kind == Doc && doc.content.Nodes?
    ensures Unescape(StripTags(ChildrenHtml(doc, 0))) == TextContent(doc)
  {
    assert NodeToHtml(doc) == ChildrenHtml(doc, 0);
    RenderedText(doc);
  }

  /** A `doc` whose children render to nothing (no children, or only images without `src`) falls back to the trimmed content. */
  lemma PostContentEmptyDoc(content: string, parse: string -> Option<Node>, doc: Node)
    requires content != "" && IsLikelyJson(Trim(content))
    requires parse(Trim(content)) == Some(doc) && doc.kind == Doc && doc.content.Nodes?
    requires ChildrenHtml(doc, 0) == ""
    ensures PostContentToHtml(Some(content), parse) == Trim(content)
  {
    PostContentDoc(content, parse, doc);
  }

  // ---------------------------------------------------------------------
  // Individual node types
  // ---------------------------------------------------------------------

  /**
   * An ordered list carries a `start` attribute exactly when its start is
   * not 1, and the attribute's value reads back as that start.
   */
  lemma StartAttrReadsBack(start: Option<int>)
    ensures StartAttr(start) != "" <==> start.GetOr(1) != 1
    ensures start.GetOr(1) != 1 ==> ParseInt(StartAttr(start)[8..]) == Some(start.value)
  {
    var n := start.GetOr(1);
    if n != 1 {
      assert StartAttr(start)[8..] == IntToDecimal(n) + "\"";
      ParseIntOfDecimal(n, "\"");
    }
  }

  /** An image renders to nothing exactly when its `src` is missing or empty; otherwise to one `img` element. */
  lemma ImageRendering(n: Node)
    requires n.kind == Image
    ensures NodeToHtml(n) == "" <==> n.attrs.src.GetOr("") == ""
    ensures n.attrs.src.GetOr("") != "" ==> NodeToHtml(n) == VoidElement("img", ImageAttrs(n.attrs))
  {
  }

  /**
   * Rules and breaks ignore their children; a node of a type the renderer
   * does not know renders as its children, or as nothing when it has no
   * `content` array.
   */
  lemma LeafAndUnknownNodes(n: Node)
    ensures n.kind == HorizontalRule ==> NodeToHtml(n) == "<hr />"
    ensures n.kind == HardBreak ==> NodeToHtml(n) == "<br />"
    ensures n.kind == OtherNode && n.content.Missing? ==> NodeToHtml(n) == ""
    ensures n.kind == OtherNode && n.content.Nodes? ==> NodeToHtml(n) == ChildrenHtml(n, 0)
  {
  }

  /** Rules, breaks and images render no text, whatever children they are given. */
  lemma LeavesHaveNoText(n: Node)
    requires n.kind in {HorizontalRule, HardBreak, Image}
    ensures Unescape(StripTags(NodeToHtml(n))) == ""
  {
    RenderedText(n);
  }

  /** The text `hi` in bold renders as `<strong>hi</strong>`. */
  lemma BoldTextExample()
    ensures NodeToHtml(Node(TextNode, Missing, Some("hi"), NoAttrs, [Mark(Bold, None, None, None)]))
            == "<strong>" + "hi" + "</strong>"
  {
    EscapeHtmlPlain("hi");
    var bold := Mark(Bold, None, None, None);
    var n := Node(TextNode, Missing, Some("hi"), NoAttrs, [bold]);
    assert NodeToHtml(n) == WrapMarks(EscapeHtml("hi"), [bold]);
    assert [bold][..0] == [];
    assert WrapMarks("hi", [bold]) == WrapMark("hi", bold) == Element("strong", "", "hi");
    StrongElement("hi");
  }

  lemma StrongElement(inner: string)
    ensures Element("strong", "", inner) == "<strong>" + inner + "</strong>"
  {
    assert "<" + "strong" + "" == "<strong";
    assert "<strong" + ">" == "<strong>";
    assert "</" + "strong" + ">" == "</strong>";
  }

  lemma ParagraphElement(inner: string)
    ensures Element("p", "", inner) == "<p>" + inner + "</p>"
  {
    assert "<" + "p" + "" == "<p";
    assert "<p" + ">" == "<p>";
    assert "</" + "p" + ">" == "</p>";
  }

  /** A paragraph holding the text `hi` in bold renders as `<p><strong>hi</strong></p>`. */
  lemma BoldParagraphExample()
    ensures var text := Node(TextNode, Missing, Some("hi"), NoAttrs, [Mark(Bold, None, None, None)]);
            NodeToHtml(Node(Paragraph, Nodes([text]), None, NoAttrs, []))
            == "<p>" + "<strong>" + "hi" + "</strong>" + "</p>"
  {
    var text := Node(TextNode, Missing, Some("hi"), NoAttrs, [Mark(Bold, None, None, None)]);
    var para := Node(Paragraph, Nodes([text]), None, NoAttrs, []);
    var strong := "<strong>" + "hi" + "</strong>";
    BoldTextExample();
    assert Kids(para) == [text];
    assert ChildrenHtml(para, 1) == "";
    assert ChildrenHtml(para, 0) == strong;
    ParagraphElement(strong);
    assert NodeToHtml(para) == "<p>" + strong + "</p>";
  }

  /** A heading above level 6 renders as `h6`; one below level 1, or with no level, as `h1`. */
  lemma HeadingClampExample(n: Node)
    requires n.kind == Heading
    ensures n.attrs.level.Some? && n.attrs.level.value > 6 ==> NodeToHtml(n) == Element("h6", "", ChildrenHtml(n, 0))
    ensures (n.attrs.level.None? || n.attrs.level.value < 1) ==> NodeToHtml(n) == Element("h1", "", ChildrenHtml(n, 0))
  {
    assert IntToDecimal(6) == "6" && "h" + "6" == "h6";
    assert IntToDecimal(1) == "1" && "h" + "1" == "h1";
  }

  // ---------------------------------------------------------------------
  // Attribute lists as a browser reads them back
  // ---------------------------------------------------------------------

  /**
   * The first attribute of a list, as a browser reads it: a space, a name up
   * to the first `=`, then a value from `="` up to the next `"`; with the
   * text after it. `None` when the text does not start that way.
   */
  function NextAttr(s: string): (r: Option<((string, string), string)>)
    ensures r.Some? ==> |r.value.1| < |s|
  {
    if s == [] || s[0] != ' ' then None
    else
      var n := IndexOf(s[1..], '=');
      if n + 2 >= |s| || s[n + 2] != '"' then None
      else
        var rest := s[n + 3..];
        var v := IndexOf(rest, '"');
        if v == |rest| then None else Some(((s[1..n + 1], rest[..v]), rest[v + 1..]))
  }

  /** Reads a whole attribute list: its pairs in order, or `None` when some part does not have the shape. */
  function ParseAttrs(s: string): Option<seq<(string, string)>>
    decreases |s|
  {
    if s == [] then Some([])
    else match NextAttr(s)
      case None => None
      case Some(next) =>
        var more := ParseAttrs(next.1);
        if more.None? then None else Some([next.0] + more.value)
  }

  /** `IndexOf` finds the first occurrence: a `c` right after a prefix without one. */
  lemma IndexOfAfter(a: string, c: char, b: string)
    requires c !in a && b != [] && b[0] == c
    ensures IndexOf(a + b, c) == |a|
  {
    var s := a + b;
    var k := IndexOf(s, c);
    IndexOfFirst(s, c);
    assert s[|a|] == c;
    assert forall j :: 0 <= j < |a| ==> s[j] == a[j];
  }

  /** An attribute whose name has no `=` and whose value has no `"` reads back as that one pair. */
  lemma ParseRawAttr(name: string, value: string, rest: string)
    requires '=' !in name && '"' !in value && ParseAttrs(rest).Some?
    ensures ParseAttrs(RawAttr(name, value) + rest) == Some([(name, value)] + ParseAttrs(rest).value)
  {
    NextRawAttr(name, value, rest);
    ParseAttrsStep(RawAttr(name, value) + rest, (name, value), rest);
  }

  /** The first attribute of a raw attribute followed by anything is that attribute. */
  lemma NextRawAttr(name: string, value: string, rest: string)
    requires '=' !in name && '"' !in value
    ensures NextAttr(RawAttr(name, value) + rest) == Some(((name, value), rest))
  {
    RawAttrName(name, value, rest);
    QuotedValue(value, rest);
  }

  /** The name of a raw attribute ends at its `=`, and the value starts after `="`. */
  lemma RawAttrName(name: string, value: string, rest: string)
    requires '=' !in name
    ensures var s := RawAttr(name, value) + rest; var n := |name|;
            n + 2 < |s| && s[0] == ' ' && IndexOf(s[1..], '=') == n && s[n + 2] == '"'
            && s[1..n + 1] == name && s[n + 3..] == value + ("\"" + rest)
  {
    var afterName := "=\"" + (value + ("\"" + rest));
    var s := " " + (name + afterName);
    assert RawAttr(name, value) + rest == s;
    assert s[1..] == name + afterName;
    IndexOfAfter(name, '=', afterName);
  }

  /** A value without `"` ends at the next `"`. */
  lemma QuotedValue(value: string, rest: string)
    requires '"' !in value
    ensures var tail := value + ("\"" + rest);
            IndexOf(tail, '"') == |value| && tail[..|value|] == value && tail[|value| + 1..] == rest
  {
    IndexOfAfter(value, '"', "\"" + rest);
    var tail := value + ("\"" + rest);
    assert tail[|value| + 1..] == rest;
  }


  /** One step of `ParseAttrs`: the first pair, then the rest of the list. */
  lemma ParseAttrsStep(s: string, pair: (string, string), after: string)
    requires s != [] && NextAttr(s) == Some((pair, after)) && ParseAttrs(after).Some?
    ensures ParseAttrs(s) == Some([pair] + ParseAttrs(after).value)
  {
  }

  /** An escaped attribute: its value holds no `"`, so it reads back as one pair whose value decodes to the original. */
  lemma AttrReadsBack(name: string, value: string, rest: string)
    requires '=' !in name && ParseAttrs(rest).Some?
    ensures '"' !in EscapeHtml(value) && Unescape(EscapeHtml(value)) == value
    ensures ParseAttrs(Attr(name, value) + rest) == Some([(name, EscapeHtml(value))] + ParseAttrs(rest).value)
  {
    EscapeHtmlIsEscaped(value);
    UnescapeEscapeHtml(value);
    assert Attr(name, value) == RawAttr(name, EscapeHtml(value));
    ParseRawAttr(name, EscapeHtml(value), rest);
  }

  /**
   * A link's attributes read back as exactly `href` (default `#`) and, when
   * truthy, `target`, each value escaped and decoding to the mark's own: a
   * quote in either cannot end the attribute early or add another one.
   */
  lemma LinkAttrsReadBack(m: Mark)
    ensures var href := m.href.GetOr("#");
            ParseAttrs(LinkAttrs(m)) == Some([("href", EscapeHtml(href))]
              + (if Truthy(m.target) then [("target", EscapeHtml(m.target.value))] else []))
            && Unescape(EscapeHtml(href)) == href
    ensures Truthy(m.target) ==> Unescape(EscapeHtml(m.target.value)) == m.target.value
  {
    var href := m.href.GetOr("#");
    var target := if Truthy(m.target) then Attr("target", m.target.value) else "";
    var pairs: seq<(string, string)> := if Truthy(m.target) then [("target", EscapeHtml(m.target.value))] else [];
    if Truthy(m.target) {
      SingleEscapedAttr("target", m.target.value);
      UnescapeEscapeHtml(m.target.value);
    } else {
      NothingParses();
    }
    assert ParseAttrs(target) == Some(pairs);
    AttrReadsBack("href", href, target);
    assert LinkAttrs(m) == Attr("href", href) + target;
  }

  /**
   * A truthy colour wraps the text in a `span` whose only attribute is
   * `style`, read back as `color: ` and the escaped colour, which decodes
   * to `color: ` and the colour itself.
   */
  lemma ColorStyleReadsBack(out: string, m: Mark)
    requires m.kind == TextStyle && Truthy(m.color)
    ensures var style := "color: " + EscapeHtml(m.color.value);
            WrapMark(out, m) == Element("span", RawAttr("style", style), out)
            && ParseAttrs(RawAttr("style", style)) == Some([("style", style)])
            && Unescape(style) == "color: " + m.color.value
  {
    var c := m.color.value;
    var style := "color: " + EscapeHtml(c);
    EscapeHtmlIsEscaped(c);
    assert '"' !in style;
    SingleAttr("style", style);
    StyleDecodes(c);
  }

  /** The style value decodes to `color: ` and the colour: the prefix has nothing to escape. */
  lemma StyleDecodes(c: string)
    ensures Unescape("color: " + EscapeHtml(c)) == "color: " + c
  {
    EscapeHtmlPlain("color: ");
    EscapeHtmlAppend("color: ", c);
    UnescapeEscapeHtml("color: " + c);
  }

  /**
   * An image's attributes read back as escaped `src` and `alt`, then
   * `title` exactly when the title is non-empty, then `loading="lazy"`.
   */
  lemma ImageAttrsReadBack(a: NodeAttrs)
    ensures var title := a.title.GetOr("");
            ParseAttrs(ImageAttrs(a)) == Some([("src", EscapeHtml(a.src.GetOr(""))), ("alt", EscapeHtml(a.alt.GetOr("")))]
              + (if title != "" then [("title", EscapeHtml(title))] else []) + [("loading", "lazy")])
  {
    var src, alt, title := a.src.GetOr(""), a.alt.GetOr(""), a.title.GetOr("");
    var lazy := RawAttr("loading", "lazy");
    var t := if title != "" then Attr("title", title) else "";
    var titlePair: seq<(string, string)> := if title != "" then [("title", EscapeHtml(title))] else [];
    var tail := Attr("alt", alt) + (t + lazy);
    ImageTail(alt, title);
    AttrReadsBack("src", src, tail);
    ImageAttrsShape(a);
    var srcPair, altPair := ("src", EscapeHtml(src)), ("alt", EscapeHtml(alt));
    Regroup([srcPair], [altPair], titlePair, [("loading", "lazy")]);
    assert [srcPair] + [altPair] == [srcPair, altPair];
  }

  /** The image attributes, grouped from the right. */
  lemma ImageAttrsShape(a: NodeAttrs)
    ensures var title := a.title.GetOr("");
            ImageAttrs(a) == Attr("src", a.src.GetOr("")) + (Attr("alt", a.alt.GetOr(""))
              + ((if title != "" then Attr("title", title) else "") + RawAttr("loading", "lazy")))
  {
    var title := a.title.GetOr("");
    Regroup(Attr("src", a.src.GetOr("")), Attr("alt", a.alt.GetOr("")),
            if title != "" then Attr("title", title) else "", RawAttr("loading", "lazy"));
  }

  /** The image attributes after `src` read back as `alt`, the optional `title` and `loading`. */
  lemma ImageTail(alt: string, title: string)
    ensures var t := if title != "" then Attr("title", title) else "";
            var titlePair: seq<(string, string)> := if title != "" then [("title", EscapeHtml(title))] else [];
            ParseAttrs(Attr("alt", alt) + (t + RawAttr("loading", "lazy")))
              == Some([("alt", EscapeHtml(alt))] + (titlePair + [("loading", "lazy")]))
  {
    SingleAttr("loading", "lazy");
    OptionalAttrThen("title", title, RawAttr("loading", "lazy"));
    var t := if title != "" then Attr("title", title) else "";
    AttrReadsBack("alt", alt, t + RawAttr("loading", "lazy"));
  }

  /** An attribute written only for a non-empty value, followed by a list that reads back. */
  lemma OptionalAttrThen(name: string, value: string, rest: string)
    requires '=' !in name && ParseAttrs(rest).Some?
    ensures var t := if value != "" then Attr(name, value) else "";
            var pairs: seq<(string, string)> := if value != "" then [(name, EscapeHtml(value))] else [];
            ParseAttrs(t + rest) == Some(pairs + ParseAttrs(rest).value)
  {
    var more := ParseAttrs(rest).value;
    if value != "" {
      AttrReadsBack(name, value, rest);
    } else {
      assert "" + rest == rest;
      assert [] + more == more;
    }
  }

  /** Concatenation regrouped to the right. */
  lemma Regroup<T>(a: seq<T>, b: seq<T>, c: seq<T>, d: seq<T>)
    ensures ((a + b) + c) + d == a + (b + (c + d))
  {
  }

  /** A task item's attributes read back as its type, then `data-checked="true"` exactly when `checked` is `true`. */
  lemma TaskItemAttrsReadBack(a: NodeAttrs)
    ensures ParseAttrs(TaskItemAttrs(a)) == Some([("data-type", "taskItem")]
              + (if a.checked == Some(true) then [("data-checked", "true")] else []))
  {
    var checked := if a.checked == Some(true) then RawAttr("data-checked", "true") else "";
    var pairs: seq<(string, string)> := if a.checked == Some(true) then [("data-checked", "true")] else [];
    if a.checked == Some(true) {
      SingleAttr("data-checked", "true");
    } else {
      NothingParses();
    }
    assert ParseAttrs(checked) == Some(pairs);
    ParseRawAttr("data-type", "taskItem", checked);
    assert TaskItemAttrs(a) == RawAttr("data-type", "taskItem") + checked;
  }

  /** A task list's attribute reads back as its type alone. */
  lemma TaskListAttrsReadBack()
    ensures ParseAttrs(TaskListAttrs) == Some([("data-type", "taskList")])
  {
    SingleAttr("data-type", "taskList");
  }

  /** The empty attribute list. */
  lemma NothingParses()
    ensures ParseAttrs("") == Some([])
  {
  }

  /** A single escaped attribute reads back as its one pair. */
  lemma SingleEscapedAttr(name: string, value: string)
    requires '=' !in name
    ensures ParseAttrs(Attr(name, value)) == Some([(name, EscapeHtml(value))])
  {
    EscapeHtmlIsEscaped(value);
    assert Attr(name, value) == RawAttr(name, EscapeHtml(value));
    SingleAttr(name, EscapeHtml(value));
  }

  /** A single raw attribute reads back as its one pair. */
  lemma SingleAttr(name: string, value: string)
    requires '=' !in name && '"' !in value
    ensures ParseAttrs(RawAttr(name, value)) == Some([(name, value)])
  {
    NothingParses();
    ParseRawAttr(name, value, "");
    assert RawAttr(name, value) + "" == RawAttr(name, value);
    assert [(name, value)] + [] == [(name, value)];
  }
}

/** The tree of a .fl file: nodes with properties and children, as Node::write prints
    them. Every function takes the text that follows and returns the text in front of it. */
module FluidTreeWriter {
  import opened ProjectWriter
  import opened Sequences

  datatype Property = Property(keyword: string, value: Option<string>)

  datatype Node = Node(kind: string, prefix: string, name: string, properties: seq<Property>, children: seq<Node>)

  /** Whether a property has an argument, and whether the writer starts a line for it. */
  datatype PropertyInfo = PropertyInfo(hasValue: bool, ownLine: bool)

  datatype TypeInfo = TypeInfo(isClass: bool, canHaveChildren: bool, properties: map<string, PropertyInfo>)

  type Schema = map<string, TypeInfo>

  /** The characters in front of a property keyword. */
  function Gap(info: TypeInfo, keyword: string, needspace: bool, level: nat): string {
    if keyword in info.properties && info.properties[keyword].ownLine then WriteIndent(level + 1)
    else Space(needspace)
  }

  function ValueText(value: Option<string>, tail: string): string {
    if value.None? then tail else WriteWord(true, value.value) + tail
  }

  /** The properties and the brace that closes them. */
  function PropertiesText(info: TypeInfo, ps: seq<Property>, needspace: bool, level: nat, tail: string): string {
    if ps == [] then WriteClose(needspace, level) + tail
    else
      Gap(info, ps[0].keyword, needspace, level)
      + (Quote(ps[0].keyword) + ValueText(ps[0].value, PropertiesText(info, ps[1..], true, level, tail)))
  }

  function PrefixText(node: Node, tail: string): string {
    if node.prefix == "" then tail else WriteWord(true, node.prefix) + tail
  }

  function ChildrenText(schema: Schema, node: Node, level: nat, tail: string): string
    decreases node, 0
  {
    if node.kind in schema && schema[node.kind].canHaveChildren then
      WriteOpen(true) + NodesText(schema, node.children, level + 1, "", WriteClose(node.children != [], level) + tail)
    else tail
  }

  /** What follows the type word of a node. */
  function BodyText(schema: Schema, node: Node, level: nat, tail: string): string
    decreases node, 1
  {
    if node.kind !in schema then tail
    else
      PrefixText(node,
        WriteWord(true, node.name)
        + (WriteOpen(true)
           + PropertiesText(schema[node.kind], node.properties, false, level, ChildrenText(schema, node, level, tail))))
  }

  function NodesText(schema: Schema, nodes: seq<Node>, level: nat, separator: string, tail: string): string
    decreases nodes
  {
    if nodes == [] then tail
    else
      WriteIndent(level)
      + (Quote(nodes[0].kind)
         + BodyText(schema, nodes[0], level, separator + NodesText(schema, nodes[1..], level, separator, tail)))
  }
}

/** Project_Reader::read_children: the text as the reader gets it, without carriage
    returns. Failed stands for every error the reader reports. */
module FluidTreeReader {
  import opened ProjectReader
  import opened FluidTreeWriter
  import opened Sequences

  datatype Parsed<T> = Failed | Parsed(value: T, rest: string)

  function ReadProperties(info: TypeInfo, s: string): (r: Parsed<seq<Property>>)
    ensures r.Parsed? ==> |r.rest| <= |s|
    decreases |s|
  {
    match ReadWord(s, false)
    case EndOfFile => Parsed([], "")
    case Unterminated => Failed
    case Word(keyword, rest) =>
      if keyword == "}" then Parsed([], rest)
      else if keyword !in info.properties then Failed
      else if !info.properties[keyword].hasValue then AddProperty(Property(keyword, None), ReadProperties(info, rest))
      else
        match ReadWord(rest, false)
        case EndOfFile => Failed
        case Unterminated => Failed
        case Word(v, rest') => AddProperty(Property(keyword, Some(v)), ReadProperties(info, rest'))
  }

  function AddProperty(p: Property, r: Parsed<seq<Property>>): (r': Parsed<seq<Property>>)
    ensures r'.Parsed? <==> r.Parsed?
    ensures r'.Parsed? ==> r'.rest == r.rest && r'.value == [p] + r.value
  {
    if r.Failed? then Failed else Parsed([p] + r.value, r.rest)
  }

  /** From the type word on. The word before the property list is the name; if there are
      two words and the node is a class, the first is its prefix. */
  function ReadNode(schema: Schema, kind: string, s: string): (r: Parsed<Node>)
    requires kind in schema
    ensures r.Parsed? ==> |r.rest| <= |s|
    decreases |s|, 1
  {
    match ReadWord(s, false)
    case EndOfFile => Failed
    case Unterminated => Failed
    case Word(first, rest) =>
      match ReadWord(rest, true)
      case EndOfFile => Failed
      case Unterminated => Failed
      case Word(second, rest') =>
        if second == "{" then ReadLists(schema, kind, "", first, rest')
        else if !schema[kind].isClass then Failed
        else
          var brace := ReadWord(rest', true);
          if brace.Word? && brace.text == "{" then ReadLists(schema, kind, first, second, brace.rest) else Failed
  }

  /** The property list and, for a type that has them, the children. */
  function ReadLists(schema: Schema, kind: string, prefix: string, name: string, s: string): (r: Parsed<Node>)
    requires kind in schema
    ensures r.Parsed? ==> |r.rest| <= |s|
    ensures r.Parsed? ==> r.value.prefix == prefix && r.value.name == name
    decreases |s|, 0
  {
    var ps := ReadProperties(schema[kind], s);
    if ps.Failed? then Failed
    else if !schema[kind].canHaveChildren then Parsed(Node(kind, prefix, name, ps.value, []), ps.rest)
    else
      var brace := ReadWord(ps.rest, true);
      if !(brace.Word? && brace.text == "{") then Failed
      else
        var children := ReadNodes(schema, brace.rest, false);
        if children.Failed? then Failed
        else Parsed(Node(kind, prefix, name, ps.value, children.value), children.rest)
  }

  function ReadNodes(schema: Schema, s: string, atTop: bool): (r: Parsed<seq<Node>>)
    ensures r.Parsed? ==> |r.rest| <= |s|
    decreases |s|, 2
  {
    match ReadWord(s, false)
    case EndOfFile => if atTop then Parsed([], "") else Failed
    case Unterminated => Failed
    case Word(kind, rest) =>
      if kind == "}" then (if atTop then Failed else Parsed([], rest))
      else if kind !in schema then Failed
      else
        var first := ReadNode(schema, kind, rest);
        if first.Failed? then Failed
        else
          var more := ReadNodes(schema, first.rest, atTop);
          if more.Failed? then Failed else Parsed([first.value] + more.value, more.rest)
  }
}

/** Reading a tree undoes writing it. */
module FluidTree {
  import opened FlCharacters
  import opened ProjectWriter
  import opened ProjectReader
  import opened FluidWords
  import opened FluidTreeWriter
  import opened FluidTreeReader
  import opened Sequences

  predicate IsText(w: string) {
    '\0' !in w && '\r' !in w
  }

  /** FLUID's tables: type names and property keywords are identifiers. */
  ghost predicate ValidSchema(schema: Schema) {
    forall kind :: kind in schema ==>
      IsBare(kind) && forall k :: k in schema[kind].properties ==> IsBare(k)
  }

  predicate ValidProperty(info: TypeInfo, p: Property) {
    && p.keyword in info.properties
    && (p.value.Some? <==> info.properties[p.keyword].hasValue)
    && (p.value.Some? ==> IsText(p.value.value))
  }

  predicate ValidNode(schema: Schema, node: Node) {
    && node.kind in schema
    && IsText(node.prefix) && IsText(node.name)
    && (node.prefix != "" ==> schema[node.kind].isClass)
    && (forall i :: 0 <= i < |node.properties| ==> ValidProperty(schema[node.kind], node.properties[i]))
    && (node.children != [] ==> schema[node.kind].canHaveChildren)
    && ValidNodes(schema, node.children)
  }

  predicate ValidNodes(schema: Schema, nodes: seq<Node>) {
    forall i :: 0 <= i < |nodes| ==> ValidNode(schema, nodes[i])
  }

  /** A class with a prefix has a name that is written without braces. */
  predicate WellNamed(node: Node) {
    (node.prefix == "" || IsBare(node.name)) && AllWellNamed(node.children)
  }

  predicate AllWellNamed(nodes: seq<Node>) {
    forall i :: 0 <= i < |nodes| ==> WellNamed(nodes[i])
  }

  lemma FirstAndRest(schema: Schema, nodes: seq<Node>)
    requires nodes != [] && ValidNodes(schema, nodes)
    ensures ValidNode(schema, nodes[0]) && ValidNodes(schema, nodes[1..])
    ensures AllWellNamed(nodes) <==> WellNamed(nodes[0]) && AllWellNamed(nodes[1..])
    ensures [nodes[0]] + nodes[1..] == nodes
  {
    if AllWellNamed(nodes[1..]) && WellNamed(nodes[0]) {
      forall i | 0 <= i < |nodes| ensures WellNamed(nodes[i]) {
        if i > 0 { assert nodes[i] == nodes[1..][i - 1]; }
      }
    }
  }

  // ----- words between spaces -----

  predicate AllSpace(gap: string) {
    forall i :: 0 <= i < |gap| ==> IsSpace(gap[i])
  }

  lemma SpaceBeforeWord(gap: string, s: string, wantBrace: bool)
    requires AllSpace(gap)
    ensures ReadWord(gap + s, wantBrace) == ReadWord(s, wantBrace)
  {
    SkipSpaceSkips(gap, s);
  }

  lemma NameIsRead(gap: string, w: string, rest: string, wantBrace: bool)
    requires AllSpace(gap) && IsBare(w) && Delimits(rest)
    ensures ReadWord(gap + (Quote(w) + rest), wantBrace) == Word(w, rest)
  {
    assert Space(false) + w == w;
    BareWordIsRead(false, w, rest, wantBrace);
    SpaceBeforeWord(gap, w + rest, wantBrace);
  }

  lemma TextIsRead(w: string, rest: string)
    requires '\0' !in w && Delimits(rest)
    ensures ReadWord(WriteWord(true, w) + rest, false) == Word(w, rest)
  {
    WordRoundTrip(true, w, rest);
  }

  lemma OpenIsRead(rest: string)
    ensures ReadWord(WriteOpen(true) + rest, true) == Word("{", rest)
    ensures Delimits(WriteOpen(true) + rest)
  {
    BraceIsRead(true, '{', rest, true);
  }

  lemma CloseIsRead(needspace: bool, level: nat, rest: string)
    ensures ReadWord(WriteClose(needspace, level) + rest, false) == Word("}", rest)
    ensures Delimits(WriteClose(needspace, level) + rest)
  {
    BraceIsRead(false, '}', rest, false);
    assert Space(false) + ['}'] + rest == "}" + rest;
    if needspace {
      Regroup(WriteIndent(level), "}", rest);
      SpaceBeforeWord(WriteIndent(level), "}" + rest, false);
    }
  }

  lemma WordDelimits(w: string, rest: string)
    ensures Delimits(WriteWord(true, w) + rest)
  {
  }

  // ----- properties -----

  lemma PropertiesDelimit(info: TypeInfo, ps: seq<Property>, level: nat, tail: string)
    ensures Delimits(PropertiesText(info, ps, true, level, tail))
  {
    if ps == [] { CloseIsRead(true, level, tail); }
  }

  /** One step of the reader over a property list. */
  lemma OnePropertyMore(info: TypeInfo, s: string, p: Property, rest: string, ps: seq<Property>, tail: string)
    requires p.keyword != "}" && ValidProperty(info, p)
    requires p.value.None? ==> ReadWord(s, false) == Word(p.keyword, rest)
    requires p.value.Some? ==>
      var w := ReadWord(s, false);
      w.Word? && w.text == p.keyword && ReadWord(w.rest, false) == Word(p.value.value, rest)
    requires ReadProperties(info, rest) == Parsed(ps, tail)
    ensures ReadProperties(info, s) == Parsed([p] + ps, tail)
  {
    assert p == Property(p.keyword, p.value);
  }

  /** The first of a list of properties, in front of the rest. */
  lemma FirstPropertyIsRead(info: TypeInfo, ps: seq<Property>, needspace: bool, level: nat, tail: string)
    requires ps != [] && IsBare(ps[0].keyword) && ValidProperty(info, ps[0])
    requires ReadProperties(info, PropertiesText(info, ps[1..], true, level, tail)) == Parsed(ps[1..], tail)
    ensures ReadProperties(info, PropertiesText(info, ps, needspace, level, tail)) == Parsed([ps[0]] + ps[1..], tail)
  {
    var p := ps[0];
    var after := PropertiesText(info, ps[1..], true, level, tail);
    PropertiesDelimit(info, ps[1..], level, tail);
    ValueIsRead(p.value, after);
    NameIsRead(Gap(info, p.keyword, needspace, level), p.keyword, ValueText(p.value, after), false);
    IsBareIsNoBrace(p.keyword);
    OnePropertyMore(info, PropertiesText(info, ps, needspace, level, tail), p, after, ps[1..], tail);
  }

  lemma {:induction false} PropertiesAreRead(info: TypeInfo, ps: seq<Property>, needspace: bool, level: nat, tail: string)
    requires forall k :: k in info.properties ==> IsBare(k)
    requires forall i :: 0 <= i < |ps| ==> ValidProperty(info, ps[i])
    ensures ReadProperties(info, PropertiesText(info, ps, needspace, level, tail)) == Parsed(ps, tail)
    decreases |ps|
  {
    if ps == [] {
      CloseIsRead(needspace, level, tail);
    } else {
      PropertiesAreRead(info, ps[1..], true, level, tail);
      FirstPropertyIsRead(info, ps, needspace, level, tail);
      assert ps == [ps[0]] + ps[1..];
    }
  }

  lemma ValueIsRead(value: Option<string>, after: string)
    requires Delimits(after) && (value.Some? ==> '\0' !in value.value)
    ensures Delimits(ValueText(value, after))
    ensures value.Some? ==> ReadWord(ValueText(value, after), false) == Word(value.value, after)
  {
    if value.Some? {
      WordDelimits(value.value, after);
      TextIsRead(value.value, after);
    }
  }

  lemma IsBareIsNoBrace(w: string)
    requires IsBare(w)
    ensures w != "}" && w != "{"
  {
    assert IsId(w[0]);
  }

  // ----- nodes -----

  lemma BodyDelimits(schema: Schema, node: Node, level: nat, tail: string)
    requires node.kind in schema
    ensures Delimits(BodyText(schema, node, level, tail))
  {
  }

  /** The two words of a class, or the one word of any other node. */
  lemma NameAndPrefixAreRead(schema: Schema, node: Node, level: nat, tail: string)
    requires ValidNode(schema, node)
    requires node.prefix == "" || IsBare(node.name)
    ensures ReadNode(schema, node.kind, BodyText(schema, node, level, tail))
         == ReadLists(schema, node.kind, node.prefix, node.name,
              PropertiesText(schema[node.kind], node.properties, false, level, ChildrenText(schema, node, level, tail)))
  {
    var lists := PropertiesText(schema[node.kind], node.properties, false, level, ChildrenText(schema, node, level, tail));
    var open := WriteOpen(true) + lists;
    OpenIsRead(lists);
    TextIsRead(node.name, open);
    if node.prefix != "" {
      WordDelimits(node.name, open);
      TextIsRead(node.prefix, WriteWord(true, node.name) + open);
      WordWhereBraceWanted(true, node.name, open);
      assert node.name != "{" by { assert IsBare(node.name); }
    }
  }

  /** The reader over the lists of one node. */
  lemma ListsAreRead(schema: Schema, node: Node, s: string, after: string, inner: string, tail: string)
    requires ValidNode(schema, node)
    requires ReadProperties(schema[node.kind], s) == Parsed(node.properties, after)
    requires !schema[node.kind].canHaveChildren ==> after == tail
    requires schema[node.kind].canHaveChildren ==>
      ReadWord(after, true) == Word("{", inner) && ReadNodes(schema, inner, false) == Parsed(node.children, tail)
    ensures ReadLists(schema, node.kind, node.prefix, node.name, s) == Parsed(node, tail)
  {
    assert node == Node(node.kind, node.prefix, node.name, node.properties, node.children);
  }

  lemma {:induction false} NodeIsRead(schema: Schema, node: Node, level: nat, tail: string)
    requires ValidSchema(schema) && ValidNode(schema, node) && WellNamed(node)
    ensures ReadNode(schema, node.kind, BodyText(schema, node, level, tail)) == Parsed(node, tail)
    decreases node
  {
    NameAndPrefixAreRead(schema, node, level, tail);
    var info := schema[node.kind];
    var after := ChildrenText(schema, node, level, tail);
    PropertiesAreRead(info, node.properties, false, level, after);
    var inner := NodesText(schema, node.children, level + 1, "", WriteClose(node.children != [], level) + tail);
    if info.canHaveChildren {
      EmptyListIsRead(schema, node.children != [], level, tail);
      OpenIsRead(inner);
      NodesAreRead(schema, node.children, level + 1, "", WriteClose(node.children != [], level) + tail, false, tail);
    }
    ListsAreRead(schema, node, PropertiesText(info, node.properties, false, level, after), after, inner, tail);
  }

  lemma EmptyListIsRead(schema: Schema, needspace: bool, level: nat, tail: string)
    ensures ReadNodes(schema, WriteClose(needspace, level) + tail, false) == Parsed([], tail)
  {
    CloseIsRead(needspace, level, tail);
  }

  /** One step of the reader over a list of nodes. */
  lemma OneNodeMore(schema: Schema, s: string, atTop: bool, node: Node, body: string, after: string, nodes: seq<Node>, rest: string)
    requires node.kind in schema && node.kind != "}"
    requires ReadWord(s, false) == Word(node.kind, body)
    requires ReadNode(schema, node.kind, body) == Parsed(node, after)
    requires ReadNodes(schema, after, atTop) == Parsed(nodes, rest)
    ensures ReadNodes(schema, s, atTop) == Parsed([node] + nodes, rest)
  {
  }

  lemma SeparatorIsSkipped(schema: Schema, separator: string, s: string, atTop: bool)
    requires AllSpace(separator)
    ensures ReadNodes(schema, separator + s, atTop) == ReadNodes(schema, s, atTop)
  {
    SpaceBeforeWord(separator, s, false);
  }

  /** A list of nodes, in front of any text that ends the list. */
  lemma {:induction false} NodesAreRead(schema: Schema, nodes: seq<Node>, level: nat, separator: string, tail: string, atTop: bool, rest: string)
    requires ValidSchema(schema) && ValidNodes(schema, nodes) && AllWellNamed(nodes)
    requires AllSpace(separator)
    requires ReadNodes(schema, tail, atTop) == Parsed([], rest)
    ensures ReadNodes(schema, NodesText(schema, nodes, level, separator, tail), atTop) == Parsed(nodes, rest)
    decreases nodes
  {
    if nodes != [] {
      var node := nodes[0];
      var more := NodesText(schema, nodes[1..], level, separator, tail);
      var after := separator + more;
      FirstAndRest(schema, nodes);
      NodesAreRead(schema, nodes[1..], level, separator, tail, atTop, rest);
      SeparatorIsSkipped(schema, separator, more, atTop);
      NodeIsRead(schema, node, level, after);
      KindIsRead(schema, nodes, level, separator, tail);
      OneNodeMore(schema, NodesText(schema, nodes, level, separator, tail), atTop, node,
        BodyText(schema, node, level, after), after, nodes[1..], rest);
    }
  }

  lemma KindIsRead(schema: Schema, nodes: seq<Node>, level: nat, separator: string, tail: string)
    requires ValidSchema(schema) && nodes != [] && nodes[0].kind in schema
    ensures nodes[0].kind != "}"
    ensures ReadWord(NodesText(schema, nodes, level, separator, tail), false)
         == Word(nodes[0].kind, BodyText(schema, nodes[0], level, separator + NodesText(schema, nodes[1..], level, separator, tail)))
  {
    var body := BodyText(schema, nodes[0], level, separator + NodesText(schema, nodes[1..], level, separator, tail));
    BodyDelimits(schema, nodes[0], level, separator + NodesText(schema, nodes[1..], level, separator, tail));
    NameIsRead(WriteIndent(level), nodes[0].kind, body, false);
    IsBareIsNoBrace(nodes[0].kind);
  }

  // ----- a class with a prefix and a name in braces -----

  /** Such a class loses its prefix, or the reader fails. */
  lemma PrefixIsMisread(schema: Schema, node: Node, level: nat, tail: string)
    requires ValidNode(schema, node) && node.prefix != "" && !IsBare(node.name)
    ensures var r := ReadNode(schema, node.kind, BodyText(schema, node, level, tail));
      r.Parsed? ==> r.value.prefix == "" && r.value.name == node.prefix
  {
    var lists := PropertiesText(schema[node.kind], node.properties, false, level, ChildrenText(schema, node, level, tail));
    var open := WriteOpen(true) + lists;
    WordDelimits(node.name, open);
    TextIsRead(node.prefix, WriteWord(true, node.name) + open);
    WordWhereBraceWanted(true, node.name, open);
  }

  lemma ListsDiffer(schema: Schema, node: Node, s: string, after: string, inner: string)
    requires ValidNode(schema, node) && schema[node.kind].canHaveChildren
    requires ReadProperties(schema[node.kind], s) == Parsed(node.properties, after)
    requires ReadWord(after, true) == Word("{", inner)
    requires var r := ReadNodes(schema, inner, false); r.Parsed? ==> r.value != node.children
    ensures var r := ReadLists(schema, node.kind, node.prefix, node.name, s); r.Parsed? ==> r.value != node
  {
  }

  /** A node whose own words are read right, but not its children. */
  lemma ChildrenAreMisread(schema: Schema, node: Node, level: nat, tail: string, inner: string)
    requires ValidSchema(schema) && ValidNode(schema, node) && schema[node.kind].canHaveChildren
    requires node.prefix == "" || IsBare(node.name)
    requires ChildrenText(schema, node, level, tail) == WriteOpen(true) + inner
    requires var r := ReadNodes(schema, inner, false); r.Parsed? ==> r.value != node.children
    ensures var r := ReadNode(schema, node.kind, BodyText(schema, node, level, tail)); r.Parsed? ==> r.value != node
  {
    NameAndPrefixAreRead(schema, node, level, tail);
    var after := ChildrenText(schema, node, level, tail);
    PropertiesAreRead(schema[node.kind], node.properties, false, level, after);
    OpenIsRead(inner);
    ListsDiffer(schema, node, PropertiesText(schema[node.kind], node.properties, false, level, after), after, inner);
  }

  lemma BadChild(schema: Schema, node: Node)
    requires ValidNode(schema, node) && !WellNamed(node) && (node.prefix == "" || IsBare(node.name))
    ensures schema[node.kind].canHaveChildren
    ensures ValidNodes(schema, node.children) && !AllWellNamed(node.children)
  {
    assert !AllWellNamed(node.children);
    assert node.children != [];
  }

  lemma {:induction false} NodeIsMisread(schema: Schema, node: Node, level: nat, tail: string)
    requires ValidSchema(schema) && ValidNode(schema, node) && !WellNamed(node)
    ensures var r := ReadNode(schema, node.kind, BodyText(schema, node, level, tail)); r.Parsed? ==> r.value != node
    decreases node, 2
  {
    if node.prefix != "" && !IsBare(node.name) {
      PrefixIsMisread(schema, node, level, tail);
    } else {
      BadChild(schema, node);
      BadChildIsMisread(schema, node, level, tail);
    }
  }

  lemma {:induction false} BadChildIsMisread(schema: Schema, node: Node, level: nat, tail: string)
    requires ValidSchema(schema) && ValidNode(schema, node) && schema[node.kind].canHaveChildren
    requires (node.prefix == "" || IsBare(node.name)) && !AllWellNamed(node.children)
    ensures var r := ReadNode(schema, node.kind, BodyText(schema, node, level, tail)); r.Parsed? ==> r.value != node
    decreases node, 1
  {
    var close, inner := InnerText(schema, node, level, tail);
    InnerIsMisread(schema, node.children, level + 1, close, inner);
    ChildrenAreMisread(schema, node, level, tail, inner);
  }

  lemma {:induction false} InnerIsMisread(schema: Schema, nodes: seq<Node>, level: nat, close: string, inner: string)
    requires ValidSchema(schema) && ValidNodes(schema, nodes) && !AllWellNamed(nodes)
    requires inner == NodesText(schema, nodes, level, "", close)
    ensures var r := ReadNodes(schema, inner, false); r.Parsed? ==> r.value != nodes
    decreases nodes, 1
  {
    NodesAreMisread(schema, nodes, level, "", close, false);
  }

  /** The text of the children and of what follows them. */
  lemma InnerText(schema: Schema, node: Node, level: nat, tail: string) returns (close: string, inner: string)
    requires node.kind in schema && schema[node.kind].canHaveChildren
    ensures close == WriteClose(node.children != [], level) + tail
    ensures inner == NodesText(schema, node.children, level + 1, "", close)
    ensures ChildrenText(schema, node, level, tail) == WriteOpen(true) + inner
  {
    close := WriteClose(node.children != [], level) + tail;
    inner := NodesText(schema, node.children, level + 1, "", close);
  }

  lemma {:induction false} NodesAreMisread(schema: Schema, nodes: seq<Node>, level: nat, separator: string, tail: string, atTop: bool)
    requires ValidSchema(schema) && ValidNodes(schema, nodes) && !AllWellNamed(nodes)
    requires AllSpace(separator)
    ensures var r := ReadNodes(schema, NodesText(schema, nodes, level, separator, tail), atTop); r.Parsed? ==> r.value != nodes
    decreases nodes, 0
  {
    var node := nodes[0];
    var more := NodesText(schema, nodes[1..], level, separator, tail);
    var after := separator + more;
    FirstAndRest(schema, nodes);
    KindIsRead(schema, nodes, level, separator, tail);
    if WellNamed(node) {
      NodeIsRead(schema, node, level, after);
      SeparatorIsSkipped(schema, separator, more, atTop);
      NodesAreMisread(schema, nodes[1..], level, separator, tail, atTop);
      RestDiffers(schema, NodesText(schema, nodes, level, separator, tail), atTop, BodyText(schema, node, level, after), nodes, after);
    } else {
      NodeIsMisread(schema, node, level, after);
    }
  }

  lemma RestDiffers(schema: Schema, s: string, atTop: bool, body: string, nodes: seq<Node>, after: string)
    requires nodes != [] && nodes[0].kind in schema && nodes[0].kind != "}"
    requires ReadWord(s, false) == Word(nodes[0].kind, body)
    requires ReadNode(schema, nodes[0].kind, body) == Parsed(nodes[0], after)
    requires var r := ReadNodes(schema, after, atTop); r.Parsed? ==> r.value != nodes[1..]
    ensures var r := ReadNodes(schema, s, atTop); r.Parsed? ==> r.value != nodes
  {
    var r := ReadNodes(schema, after, atTop);
    if r.Parsed? {
      assert ReadNodes(schema, s, atTop).value[1..] == r.value;
    }
  }

  /** Main result for trees: reading what was written gives the nodes back, and consumes
      what was written, exactly when every class with a prefix is well named. */
  lemma TreeRoundTrip(schema: Schema, nodes: seq<Node>, level: nat, tail: string)
    requires ValidSchema(schema) && ValidNodes(schema, nodes)
    ensures ReadNodes(schema, NodesText(schema, nodes, level, "", WriteClose(nodes != [], level) + tail), false) == Parsed(nodes, tail)
      <==> AllWellNamed(nodes)
  {
    var close := WriteClose(nodes != [], level) + tail;
    EmptyListIsRead(schema, nodes != [], level, tail);
    if AllWellNamed(nodes) {
      NodesAreRead(schema, nodes, level, "", close, false, tail);
    } else {
      NodesAreMisread(schema, nodes, level, "", close, false);
    }
  }

  // ----- errors -----

  /** What fails behind a list of nodes fails the list. */
  lemma {:induction false} FailureIsKept(schema: Schema, nodes: seq<Node>, level: nat, separator: string, tail: string, atTop: bool)
    requires ValidSchema(schema) && ValidNodes(schema, nodes) && AllWellNamed(nodes)
    requires AllSpace(separator)
    requires ReadNodes(schema, tail, atTop).Failed?
    ensures ReadNodes(schema, NodesText(schema, nodes, level, separator, tail), atTop).Failed?
    decreases nodes
  {
    if nodes != [] {
      var node := nodes[0];
      var more := NodesText(schema, nodes[1..], level, separator, tail);
      var after := separator + more;
      FirstAndRest(schema, nodes);
      FailureIsKept(schema, nodes[1..], level, separator, tail, atTop);
      SeparatorIsSkipped(schema, separator, more, atTop);
      NodeIsRead(schema, node, level, after);
      KindIsRead(schema, nodes, level, separator, tail);
      FailsBehind(schema, NodesText(schema, nodes, level, separator, tail), atTop, node, BodyText(schema, node, level, after), after);
    }
  }

  lemma FailsBehind(schema: Schema, s: string, atTop: bool, node: Node, body: string, after: string)
    requires node.kind in schema && node.kind != "}"
    requires ReadWord(s, false) == Word(node.kind, body)
    requires ReadNode(schema, node.kind, body) == Parsed(node, after)
    requires ReadNodes(schema, after, atTop).Failed?
    ensures ReadNodes(schema, s, atTop).Failed?
  {
  }

  /** A list that the file ends in, a brace too many at the top, and a word that is no type
      are errors, whatever nodes come before. */
  lemma MisplacedIsError(schema: Schema, nodes: seq<Node>, level: nat, separator: string, word: string, rest: string)
    requires ValidSchema(schema) && ValidNodes(schema, nodes) && AllWellNamed(nodes) && AllSpace(separator)
    requires IsBare(word) && word !in schema && Delimits(rest)
    ensures ReadNodes(schema, NodesText(schema, nodes, level, separator, ""), false).Failed?
    ensures ReadNodes(schema, NodesText(schema, nodes, level, separator, "}" + rest), true).Failed?
    ensures ReadNodes(schema, NodesText(schema, nodes, level, separator, "\n" + word + rest), true).Failed?
  {
    FailureIsKept(schema, nodes, level, separator, "", false);
    assert ("}" + rest)[0] == '}' && ("}" + rest)[1..] == rest;
    FailureIsKept(schema, nodes, level, separator, "}" + rest, true);
    NameIsRead("\n", word, rest, false);
    IsBareIsNoBrace(word);
    Regroup("\n", word, rest);
    FailureIsKept(schema, nodes, level, separator, "\n" + word + rest, true);
  }

  /** In a list of properties a word that is none is an error, but the end of the file is not. */
  lemma PropertyErrors(info: TypeInfo, word: string, rest: string)
    requires IsBare(word) && word !in info.properties && Delimits(rest)
    ensures ReadProperties(info, "\n" + (word + rest)).Failed?
    ensures ReadProperties(info, "") == Parsed([], "")
  {
    assert Quote(word) == word;
    NameIsRead("\n", word, rest, false);
    IsBareIsNoBrace(word);
  }

  /** A second name is an error unless the node is a class, and so is a node without a
      property list. */
  lemma SecondNameIsError(schema: Schema, kind: string, a: string, b: string, rest: string)
    requires kind in schema && IsBare(a) && IsBare(b) && Delimits(rest)
    ensures !schema[kind].isClass ==> ReadNode(schema, kind, " " + (a + (" " + (b + rest)))).Failed?
    ensures ReadNode(schema, kind, " " + (a + "")).Failed?
  {
    assert Quote(a) == a && Quote(b) == b;
    IsBareIsNoBrace(b);
    NameIsRead(" ", a, " " + (b + rest), false);
    NameIsRead(" ", b, rest, true);
    NameIsRead(" ", a, "", false);
  }

  /** A third name always is. */
  lemma ThirdNameIsError(schema: Schema, kind: string, a: string, b: string, c: string, rest: string)
    requires kind in schema && IsBare(a) && IsBare(b) && IsBare(c) && Delimits(rest)
    ensures ReadNode(schema, kind, " " + (a + (" " + (b + (" " + (c + rest)))))).Failed?
  {
    assert Quote(a) == a && Quote(b) == b && Quote(c) == c;
    IsBareIsNoBrace(b);
    IsBareIsNoBrace(c);
    NameIsRead(" ", a, " " + (b + (" " + (c + rest))), false);
    NameIsRead(" ", b, " " + (c + rest), true);
    NameIsRead(" ", c, rest, true);
  }

  // ----- the printed text does not depend on what follows it -----

  /** The text functions only put text in front of what follows. */
  lemma {:induction false} PropertiesPrecede(info: TypeInfo, ps: seq<Property>, needspace: bool, level: nat, tail: string)
    ensures PropertiesText(info, ps, needspace, level, tail) == PropertiesText(info, ps, needspace, level, "") + tail
    decreases |ps|
  {
    if ps == [] {
      assert WriteClose(needspace, level) + "" == WriteClose(needspace, level);
    } else {
      var p := ps[0];
      var after := PropertiesText(info, ps[1..], true, level, "");
      PropertiesPrecede(info, ps[1..], true, level, tail);
      if p.value.Some? { Regroup(WriteWord(true, p.value.value), after, tail); }
      Regroup(Quote(p.keyword), ValueText(p.value, after), tail);
      Regroup(Gap(info, p.keyword, needspace, level), Quote(p.keyword) + ValueText(p.value, after), tail);
    }
  }

  lemma {:induction false} BodyPrecedes(schema: Schema, node: Node, level: nat, tail: string)
    ensures BodyText(schema, node, level, tail) == BodyText(schema, node, level, "") + tail
    decreases node, 1
  {
    if node.kind in schema {
      var after, after' := ChildrenText(schema, node, level, ""), ChildrenText(schema, node, level, tail);
      ChildrenPrecede(schema, node, level, tail);
      var info := schema[node.kind];
      var lists := PropertiesText(info, node.properties, false, level, "");
      PropertiesPrecede(info, node.properties, false, level, after);
      PropertiesPrecede(info, node.properties, false, level, after');
      Regroup(lists, after, tail);
      Regroup(WriteOpen(true), lists + after, tail);
      var open := WriteOpen(true) + (lists + after);
      Regroup(WriteWord(true, node.name), open, tail);
      Regroup(WriteWord(true, node.prefix), WriteWord(true, node.name) + open, tail);
    }
  }

  lemma {:induction false} ChildrenPrecede(schema: Schema, node: Node, level: nat, tail: string)
    ensures ChildrenText(schema, node, level, tail) == ChildrenText(schema, node, level, "") + tail
    decreases node, 0
  {
    if node.kind in schema && schema[node.kind].canHaveChildren {
      var close := WriteClose(node.children != [], level);
      assert close + "" == close;
      NodesPrecede(schema, node.children, level + 1, "", close);
      NodesPrecede(schema, node.children, level + 1, "", close + tail);
      var inner := NodesText(schema, node.children, level + 1, "", "");
      Regroup(inner, close, tail);
      Regroup(WriteOpen(true), inner + close, tail);
    }
  }

  lemma {:induction false} NodesPrecede(schema: Schema, nodes: seq<Node>, level: nat, separator: string, tail: string)
    ensures NodesText(schema, nodes, level, separator, tail) == NodesText(schema, nodes, level, separator, "") + tail
    decreases nodes
  {
    if nodes != [] {
      var more, more' := NodesText(schema, nodes[1..], level, separator, ""), NodesText(schema, nodes[1..], level, separator, tail);
      NodesPrecede(schema, nodes[1..], level, separator, tail);
      BodyPrecedes(schema, nodes[0], level, separator + more);
      BodyPrecedes(schema, nodes[0], level, separator + more');
      var body := BodyText(schema, nodes[0], level, "");
      Regroup(separator, more, tail);
      Regroup(body, separator + more, tail);
      Regroup(Quote(nodes[0].kind), body + (separator + more), tail);
      Regroup(WriteIndent(level), Quote(nodes[0].kind) + (body + (separator + more)), tail);
    }
  }
}

/** A whole .fl file: header, options, tree. */
module FluidFile {
  import opened FlCharacters
  import opened ProjectWriter
  import opened ProjectReader
  import opened FluidWords
  import opened FluidBlocks
  import opened FluidTreeWriter
  import opened FluidTreeReader
  import opened FluidTree
  import opened Sequences

  /** A word is quoted when needed, a literal is printed as it is, a block is `{ ... }`. */
  datatype OptionValue = Flag | Text(word: string) | Literal(text: string) | Block(pieces: seq<Piece>)

  datatype FileOption = FileOption(keyword: string, value: OptionValue)

  datatype OptionKind = NoArgument | OneWord | SkippedBlock

  /** The header is the comment on the first line; the `version` option follows it. */
  datatype Project = Project(header: string, options: seq<FileOption>, nodes: seq<Node>)

  /** What a reader that skips the blocks learns: keywords and words. */
  datatype Loaded = Loaded(options: seq<Property>, nodes: seq<Node>)

  // ----- writer -----

  function OptionValueText(v: OptionValue, tail: string): string {
    match v
    case Flag => tail
    case Text(word) => WriteWord(true, word) + tail
    case Literal(text) => Space(true) + text + tail
    case Block(pieces) => BlockText(true, pieces) + tail
  }

  function OptionsText(options: seq<FileOption>, tail: string): string {
    if options == [] then tail
    else "\n" + (Quote(options[0].keyword) + OptionValueText(options[0].value, OptionsText(options[1..], tail)))
  }

  /** Project_Writer::write_project. */
  function ProjectText(schema: Schema, p: Project): string {
    "#" + (p.header + OptionsText(p.options, NodesText(schema, p.nodes, 0, "\n", "")))
  }

  // ----- reader -----

  /** Options come first; the first word that is no option must be a type. */
  function ReadOptions(kinds: map<string, OptionKind>, schema: Schema, s: string): (r: Parsed<Loaded>)
    decreases |s|
  {
    match ReadWord(s, false)
    case EndOfFile => Parsed(Loaded([], []), "")
    case Unterminated => Failed
    case Word(keyword, rest) =>
      if keyword == "}" then Failed
      else if keyword in kinds then
        if kinds[keyword].NoArgument? then AddOptions([Property(keyword, None)], ReadOptions(kinds, schema, rest))
        else
          var w := ReadWord(rest, false);
          if !w.Word? then Failed
          else if kinds[keyword].OneWord? then AddOptions([Property(keyword, Some(w.text))], ReadOptions(kinds, schema, w.rest))
          else ReadOptions(kinds, schema, w.rest)
      else if keyword !in schema then Failed
      else
        var nodes := ReadNodes(schema, s, true);
        if nodes.Failed? then Failed else Parsed(Loaded([], nodes.value), nodes.rest)
  }

  function AddOptions(ps: seq<Property>, r: Parsed<Loaded>): Parsed<Loaded> {
    if r.Failed? then Failed else Parsed(Loaded(ps + r.value.options, r.value.nodes), r.rest)
  }

  function ReadProject(kinds: map<string, OptionKind>, schema: Schema, file: string): Parsed<Loaded> {
    ReadOptions(kinds, schema, StripCR(file))
  }

  // ----- what should come back -----

  function Learned(o: FileOption): seq<Property> {
    match o.value
    case Flag => [Property(o.keyword, None)]
    case Text(word) => [Property(o.keyword, Some(word))]
    case Literal(text) => [Property(o.keyword, Some(text))]
    case Block(_) => []
  }

  function LoadedOptions(options: seq<FileOption>): seq<Property> {
    if options == [] then [] else Learned(options[0]) + LoadedOptions(options[1..])
  }

  predicate IsLiteral(text: string) {
    text != "" && IsText(text) && forall i :: 0 <= i < |text| ==> !EndsWord(text[i]) && text[i] != '\\'
  }

  predicate ValidOption(kinds: map<string, OptionKind>, o: FileOption) {
    && o.keyword in kinds
    && match o.value {
      case Flag => kinds[o.keyword].NoArgument?
      case Text(word) => kinds[o.keyword].OneWord? && IsText(word)
      case Literal(text) => kinds[o.keyword].OneWord? && IsLiteral(text)
      case Block(pieces) => kinds[o.keyword].SkippedBlock? && ValidPieces(pieces) && '\r' !in PiecesText(pieces)
    }
  }

  predicate ValidOptions(kinds: map<string, OptionKind>, options: seq<FileOption>) {
    forall i :: 0 <= i < |options| ==> ValidOption(kinds, options[i])
  }

  /** FLUID's table of options: identifiers, none of which names a type. */
  ghost predicate ValidKinds(kinds: map<string, OptionKind>, schema: Schema) {
    forall k :: k in kinds ==> IsBare(k) && k !in schema
  }

  ghost predicate ValidProject(kinds: map<string, OptionKind>, schema: Schema, p: Project) {
    && ValidSchema(schema) && ValidKinds(kinds, schema)
    && '\r' !in p.header && '\n' !in p.header
    && ValidOptions(kinds, p.options)
    && ValidNodes(schema, p.nodes)
  }

  // ----- no carriage return is written -----

  lemma {:induction false} EscapeIsText(w: string, mismatched: bool)
    requires '\r' !in w
    ensures '\r' !in Escape(w, mismatched)
  {
    if w != "" { EscapeIsText(w[1..], mismatched); }
  }

  lemma QuoteIsText(w: string)
    requires '\r' !in w
    ensures '\r' !in Quote(w)
  {
    EscapeIsText(w, !Nested(w, 0));
  }

  lemma BareIsText(w: string)
    requires IsBare(w)
    ensures '\r' !in Quote(w)
  {
  }

  lemma {:induction false} PropertiesAreText(info: TypeInfo, ps: seq<Property>, needspace: bool, level: nat, tail: string)
    requires forall k :: k in info.properties ==> IsBare(k)
    requires forall i :: 0 <= i < |ps| ==> ValidProperty(info, ps[i])
    requires '\r' !in tail
    ensures '\r' !in PropertiesText(info, ps, needspace, level, tail)
    decreases |ps|
  {
    if ps != [] {
      PropertiesAreText(info, ps[1..], true, level, tail);
      BareIsText(ps[0].keyword);
      if ps[0].value.Some? { QuoteIsText(ps[0].value.value); }
    }
  }

  lemma {:induction false} ChildrenAreText(schema: Schema, node: Node, level: nat, tail: string)
    requires ValidSchema(schema) && ValidNode(schema, node) && '\r' !in tail
    ensures '\r' !in ChildrenText(schema, node, level, tail)
    decreases node, 0
  {
    if schema[node.kind].canHaveChildren {
      NodesAreText(schema, node.children, level + 1, "", WriteClose(node.children != [], level) + tail);
    }
  }

  lemma {:induction false} BodyIsText(schema: Schema, node: Node, level: nat, tail: string)
    requires ValidSchema(schema) && ValidNode(schema, node) && '\r' !in tail
    ensures '\r' !in BodyText(schema, node, level, tail)
    decreases node, 1
  {
    var after := ChildrenText(schema, node, level, tail);
    ChildrenAreText(schema, node, level, tail);
    PropertiesAreText(schema[node.kind], node.properties, false, level, after);
    QuoteIsText(node.name);
    QuoteIsText(node.prefix);
  }

  lemma {:induction false} NodesAreText(schema: Schema, nodes: seq<Node>, level: nat, separator: string, tail: string)
    requires ValidSchema(schema) && ValidNodes(schema, nodes) && '\r' !in separator && '\r' !in tail
    ensures '\r' !in NodesText(schema, nodes, level, separator, tail)
    decreases nodes
  {
    if nodes != [] {
      var more := NodesText(schema, nodes[1..], level, separator, tail);
      NodesAreText(schema, nodes[1..], level, separator, tail);
      BodyIsText(schema, nodes[0], level, separator + more);
      BareIsText(nodes[0].kind);
    }
  }

  lemma {:induction false} OptionsAreText(kinds: map<string, OptionKind>, schema: Schema, options: seq<FileOption>, tail: string)
    requires ValidKinds(kinds, schema) && ValidOptions(kinds, options) && '\r' !in tail
    ensures '\r' !in OptionsText(options, tail)
    decreases |options|
  {
    if options != [] {
      OptionsAreText(kinds, schema, options[1..], tail);
      BareIsText(options[0].keyword);
      if options[0].value.Text? { QuoteIsText(options[0].value.word); }
    }
  }

  lemma ProjectIsText(kinds: map<string, OptionKind>, schema: Schema, p: Project)
    requires ValidProject(kinds, schema, p)
    ensures '\r' !in ProjectText(schema, p)
  {
    var tree := NodesText(schema, p.nodes, 0, "\n", "");
    NodesAreText(schema, p.nodes, 0, "\n", "");
    OptionsAreText(kinds, schema, p.options, tree);
  }

  // ----- reading a project back -----

  lemma {:induction false} LiteralIsRead(text: string, rest: string)
    requires forall i :: 0 <= i < |text| ==> !EndsWord(text[i]) && text[i] != '\\'
    requires Delimits(rest)
    ensures ReadBare(text + rest) == Word(text, rest)
  {
    if text == "" {
      assert text + rest == rest;
    } else {
      LiteralIsRead(text[1..], rest);
      TailOfConcat(text, rest);
    }
  }

  lemma LiteralWordIsRead(text: string, rest: string)
    requires IsLiteral(text) && Delimits(rest)
    ensures ReadWord(Space(true) + text + rest, false) == Word(text, rest)
  {
    var s := text + rest;
    Regroup(Space(true), text, rest);
    SpaceIsSkipped(true, s);
    assert s[0] == text[0] && SkipSpace(s) == s;
    LiteralIsRead(text, rest);
  }

  /** The argument of an option, if it has one, is one word to the reader. */
  lemma OptionValueIsRead(kinds: map<string, OptionKind>, o: FileOption, rest: string)
    requires ValidOption(kinds, o) && Delimits(rest)
    ensures Delimits(OptionValueText(o.value, rest))
    ensures o.value.Flag? ==> OptionValueText(o.value, rest) == rest
    ensures !o.value.Flag? ==>
      var w := ReadWord(OptionValueText(o.value, rest), false);
      w.Word? && w.rest == rest
      && (o.value.Text? ==> w.text == o.value.word) && (o.value.Literal? ==> w.text == o.value.text)
  {
    match o.value
    case Flag =>
    case Text(word) => TextIsRead(word, rest);
    case Literal(text) => LiteralWordIsRead(text, rest);
    case Block(pieces) => BlockIsOneWord(true, pieces, rest);
  }

  /** One step of the reader over the options. */
  lemma OneOptionMore(kinds: map<string, OptionKind>, schema: Schema, s: string, o: FileOption, after: string)
    requires ValidOption(kinds, o) && o.keyword != "}" && Delimits(after)
    requires ReadWord(s, false) == Word(o.keyword, OptionValueText(o.value, after))
    ensures ReadOptions(kinds, schema, s) == AddOptions(Learned(o), ReadOptions(kinds, schema, after))
  {
    OptionValueIsRead(kinds, o, after);
    if o.value.Block? {
      var r := ReadOptions(kinds, schema, after);
      if r.Parsed? { assert [] + r.value.options == r.value.options; }
    }
  }

  lemma AddInTurn(a: seq<Property>, b: seq<Property>, r: Parsed<Loaded>)
    ensures AddOptions(a, AddOptions(b, r)) == AddOptions(a + b, r)
  {
    if r.Parsed? { assert a + (b + r.value.options) == a + b + r.value.options; }
  }

  lemma OptionsDelimit(options: seq<FileOption>, tail: string)
    requires Delimits(tail)
    ensures Delimits(OptionsText(options, tail))
  {
  }

  lemma {:induction false} OptionsAreRead(kinds: map<string, OptionKind>, schema: Schema, options: seq<FileOption>, tail: string)
    requires ValidKinds(kinds, schema) && ValidOptions(kinds, options) && Delimits(tail)
    ensures ReadOptions(kinds, schema, OptionsText(options, tail))
         == AddOptions(LoadedOptions(options), ReadOptions(kinds, schema, tail))
    decreases |options|
  {
    if options == [] {
      var r := ReadOptions(kinds, schema, tail);
      if r.Parsed? { assert [] + r.value.options == r.value.options; }
    } else {
      var o := options[0];
      var after := OptionsText(options[1..], tail);
      OptionsAreRead(kinds, schema, options[1..], tail);
      OptionsDelimit(options[1..], tail);
      OptionValueIsRead(kinds, o, after);
      NameIsRead("\n", o.keyword, OptionValueText(o.value, after), false);
      IsBareIsNoBrace(o.keyword);
      OneOptionMore(kinds, schema, OptionsText(options, tail), o, after);
      AddInTurn(Learned(o), LoadedOptions(options[1..]), ReadOptions(kinds, schema, tail));
    }
  }

  /** A word that is neither an option nor a type is an error, whatever options come before. */
  lemma UnknownOptionIsError(kinds: map<string, OptionKind>, schema: Schema, options: seq<FileOption>, word: string, rest: string)
    requires ValidKinds(kinds, schema) && ValidOptions(kinds, options)
    requires IsBare(word) && word !in kinds && word !in schema && Delimits(rest)
    ensures ReadOptions(kinds, schema, OptionsText(options, "\n" + (word + rest))).Failed?
  {
    assert Quote(word) == word;
    NameIsRead("\n", word, rest, false);
    OptionsAreRead(kinds, schema, options, "\n" + (word + rest));
  }

  /** A word that is no option starts the tree. */
  lemma TreeStarts(kinds: map<string, OptionKind>, schema: Schema, nodes: seq<Node>)
    requires ValidSchema(schema) && ValidKinds(kinds, schema) && ValidNodes(schema, nodes) && nodes != []
    ensures var s := NodesText(schema, nodes, 0, "\n", ""); var r := ReadNodes(schema, s, true);
      ReadOptions(kinds, schema, s) == if r.Failed? then Failed else Parsed(Loaded([], r.value), r.rest)
  {
    FirstAndRest(schema, nodes);
    KindIsRead(schema, nodes, 0, "\n", "");
  }

  /** After the options the reader is in the tree. */
  lemma TreeFollowsOptions(kinds: map<string, OptionKind>, schema: Schema, nodes: seq<Node>)
    requires ValidSchema(schema) && ValidKinds(kinds, schema) && ValidNodes(schema, nodes)
    ensures var r := ReadOptions(kinds, schema, NodesText(schema, nodes, 0, "\n", ""));
      if AllWellNamed(nodes) then r == Parsed(Loaded([], nodes), "") else r.Parsed? ==> r.value.nodes != nodes
  {
    if nodes != [] {
      TreeStarts(kinds, schema, nodes);
      if AllWellNamed(nodes) {
        NodesAreRead(schema, nodes, 0, "\n", "", true, "");
      } else {
        NodesAreMisread(schema, nodes, 0, "\n", "", true);
      }
    }
  }

  lemma {:induction false} CommentIsSkipped(text: string, rest: string)
    requires '\n' !in text && (rest == "" || rest[0] == '\n')
    ensures SkipComment(text + rest) == (if rest == "" then "" else rest[1..])
  {
    if text == "" {
      assert text + rest == rest;
    } else {
      TailOfConcat(text, rest);
      CommentIsSkipped(text[1..], rest);
    }
  }

  lemma HeaderIsSkipped(kinds: map<string, OptionKind>, schema: Schema, header: string, body: string)
    requires '\n' !in header && (body == "" || body[0] == '\n')
    ensures ReadOptions(kinds, schema, "#" + (header + body)) == ReadOptions(kinds, schema, body)
  {
    var s := "#" + (header + body);
    assert s[1..] == header + body;
    CommentIsSkipped(header, body);
    assert SkipSpace(s) == SkipSpace(SkipComment(header + body));
    assert ReadWord(s, false) == ReadWord(body, false);
    ReadNodesAlike(schema, s, body);
  }

  lemma ReadNodesAlike(schema: Schema, s: string, t: string)
    requires ReadWord(s, false) == ReadWord(t, false)
    ensures ReadNodes(schema, s, true) == ReadNodes(schema, t, true)
  {
  }

  /** Main result for files: a project that FLUID wrote is read back with its words and its
      tree intact, to the end of the file, its skippable blocks skipped, exactly when every
      class with a prefix is well named. */
  lemma ProjectRoundTrip(kinds: map<string, OptionKind>, schema: Schema, p: Project)
    requires ValidProject(kinds, schema, p)
    ensures ReadProject(kinds, schema, ProjectText(schema, p)) == Parsed(Loaded(LoadedOptions(p.options), p.nodes), "")
      <==> AllWellNamed(p.nodes)
  {
    var tree := NodesText(schema, p.nodes, 0, "\n", "");
    var body := OptionsText(p.options, tree);
    ProjectIsText(kinds, schema, p);
    StripKeeps(ProjectText(schema, p));
    TreeFollowsOptions(kinds, schema, p.nodes);
    OptionsAreRead(kinds, schema, p.options, tree);
    HeaderIsSkipped(kinds, schema, p.header, body);
    var options := LoadedOptions(p.options);
    assert options + [] == options;
  }

  /** A file with one option: the comment, and the option on a line of its own. */
  lemma PrintedFile(schema: Schema, header: string, keyword: string, word: string)
    requires IsBare(keyword) && IsBare(word)
    ensures ProjectText(schema, Project(header, [FileOption(keyword, Text(word))], [])) == "#" + (header + ("\n" + (keyword + (" " + word))))
  {
    var options := [FileOption(keyword, Text(word))];
    assert options[1..] == [] && Quote(keyword) == keyword && Quote(word) == word;
    assert NodesText(schema, [], 0, "\n", "") == "";
    assert OptionValueText(Text(word), "") == " " + word;
    assert OptionsText(options, "") == "\n" + (keyword + (" " + word));
  }
}

/** What a reader of .fl files takes although no writer prints it: the escapes of C, comments,
    spaces of every kind; and the forms in which words are printed. */
module FluidForms {
  import opened FlCharacters
  import opened ProjectWriter
  import opened ProjectReader
  import opened FluidWords
  import opened FluidBlocks
  import opened FluidTreeWriter
  import opened Sequences

  // ----- escapes -----

  /** Behind a backslash these letters stand for control characters, and the end of the line
      stands for nothing. */
  lemma LetterEscapes(rest: string)
    ensures ReadQuoted(['a'] + rest) == (Some(7 as char), rest)
    ensures ReadQuoted(['b'] + rest) == (Some(8 as char), rest)
    ensures ReadQuoted(['t'] + rest) == (Some(9 as char), rest)
    ensures ReadQuoted(['n'] + rest) == (Some(10 as char), rest)
    ensures ReadQuoted(['v'] + rest) == (Some(11 as char), rest)
    ensures ReadQuoted(['f'] + rest) == (Some(12 as char), rest)
    ensures ReadQuoted(['r'] + rest) == (Some(13 as char), rest)
    ensures ReadQuoted(['\n'] + rest) == (None, rest)
  {
  }

  /** Any other character that starts no number stands for itself. */
  lemma OtherEscapes(c: char, rest: string)
    requires c != 'a' && c != 'b' && c != 't' && c != 'n' && c != 'v' && c != 'f' && c != 'r' && c != '\n'
    requires c != 'x' && !('0' <= c <= '7')
    ensures ReadQuoted([c] + rest) == (Some(c), rest)
  {
  }

  /** A digit of base 8 or 16, in lower or upper case. */
  function Digit(d: nat, upper: bool): char
    requires d < 16
  {
    if d < 10 then (48 + d) as char else if upper then (55 + d) as char else (87 + d) as char
  }

  lemma DigitHasValue(d: nat, upper: bool)
    requires d < 16
    ensures Value(Digit(d, upper)) == d
  {
  }

  /** The characters that are digits of base 8 and of base 16. */
  lemma DigitCodes(c: char)
    ensures Value(c) < 8 <==> 48 <= c as int <= 55
    ensures Value(c) < 16 <==> 48 <= c as int <= 57 || 65 <= c as int <= 70 || 97 <= c as int <= 102
  {
  }

  /** No digit of the base comes next. */
  predicate NoDigit(s: string, base: nat) {
    s == "" || Value(s[0]) >= base
  }

  lemma OneDigit(d: nat, upper: bool, s: string, base: nat, count: nat, n: nat)
    requires d < base <= 16 && count > 0
    ensures ReadDigits([Digit(d, upper)] + s, base, count, n) == ReadDigits(s, base, count - 1, n * base + d)
  {
    DigitHasValue(d, upper);
    assert ([Digit(d, upper)] + s)[1..] == s;
  }

  lemma DigitsEnd(s: string, base: nat, count: nat, n: nat)
    requires count == 0 || NoDigit(s, base)
    ensures ReadDigits(s, base, count, n) == (n, s)
  {
  }

  /** Every character can be written as three octal digits. */
  lemma OctalRoundTrip(n: nat, rest: string)
    requires n < 256
    ensures ReadQuoted([Digit(n / 64, false)] + ([Digit(n / 8 % 8, false)] + ([Digit(n % 8, false)] + rest))) == (Some(n as char), rest)
  {
    var a, b, c := n / 64, n / 8 % 8, n % 8;
    assert n == (a * 8 + b) * 8 + c;
    OctalDigits(a, b, c, rest);
  }

  lemma OctalDigits(a: nat, b: nat, c: nat, rest: string)
    requires a < 8 && b < 8 && c < 8
    ensures ReadQuoted([Digit(a, false)] + ([Digit(b, false)] + ([Digit(c, false)] + rest))) == (Some((((a * 8 + b) * 8 + c) % 256) as char), rest)
  {
    var tail := [Digit(b, false)] + ([Digit(c, false)] + rest);
    OctalStarts(a, tail);
    OneDigit(b, false, [Digit(c, false)] + rest, 8, 2, a);
    OneDigit(c, false, rest, 8, 1, a * 8 + b);
    DigitsEnd(rest, 8, 0, (a * 8 + b) * 8 + c);
  }

  lemma OctalStarts(a: nat, tail: string)
    requires a < 8
    ensures ReadQuoted([Digit(a, false)] + tail) == var r := ReadDigits(tail, 8, 2, a); (Some((r.0 % 256) as char), r.1)
  {
    DigitHasValue(a, false);
    var s := [Digit(a, false)] + tail;
    assert s[0] == Digit(a, false) && s[1..] == tail && '0' <= s[0] <= '7';
  }

  /** Fewer digits end at the first character that is none. */
  lemma ShortOctal(a: nat, b: nat, rest: string)
    requires a < 8 && b < 8 && NoDigit(rest, 8)
    ensures ReadQuoted([Digit(a, false)] + rest) == (Some(a as char), rest)
    ensures ReadQuoted([Digit(a, false)] + ([Digit(b, false)] + rest)) == (Some((a * 8 + b) as char), rest)
  {
    OctalStarts(a, rest);
    DigitsEnd(rest, 8, 2, a);
    OctalStarts(a, [Digit(b, false)] + rest);
    OneDigit(b, false, rest, 8, 2, a);
    DigitsEnd(rest, 8, 1, a * 8 + b);
  }

  /** Or as an `x` and two hexadecimal digits, if no third one follows; of three digits the
      first counts for nothing in a byte. */
  lemma HexRoundTrip(n: nat, upper: bool, rest: string)
    requires n < 256 && NoDigit(rest, 16)
    ensures ReadQuoted(['x'] + ([Digit(n / 16, upper)] + ([Digit(n % 16, upper)] + rest))) == (Some(n as char), rest)
  {
    var a, b := n / 16, n % 16;
    HexStarts([Digit(a, upper)] + ([Digit(b, upper)] + rest));
    OneDigit(a, upper, [Digit(b, upper)] + rest, 16, 3, 0);
    OneDigit(b, upper, rest, 16, 2, 0 * 16 + a);
    DigitsEnd(rest, 16, 1, (0 * 16 + a) * 16 + b);
  }

  lemma HexStarts(tail: string)
    ensures ReadQuoted(['x'] + tail) == var r := ReadDigits(tail, 16, 3, 0); (Some((r.0 % 256) as char), r.1)
  {
    assert (['x'] + tail)[1..] == tail;
  }

  lemma ThreeHexDigits(first: nat, n: nat, upper: bool, rest: string)
    requires first < 16 && n < 256
    ensures ReadQuoted(['x'] + ([Digit(first, upper)] + ([Digit(n / 16, upper)] + ([Digit(n % 16, upper)] + rest)))) == (Some(n as char), rest)
  {
    HexDigits(first, n / 16, n % 16, upper, rest);
    HexValue(first, n / 16, n % 16, n);
  }

  lemma HexDigits(a: nat, b: nat, c: nat, upper: bool, rest: string)
    requires a < 16 && b < 16 && c < 16
    ensures ReadQuoted(['x'] + ([Digit(a, upper)] + ([Digit(b, upper)] + ([Digit(c, upper)] + rest))))
         == (Some((((a * 16 + b) * 16 + c) % 256) as char), rest)
  {
    HexStarts([Digit(a, upper)] + ([Digit(b, upper)] + ([Digit(c, upper)] + rest)));
    OneDigit(a, upper, [Digit(b, upper)] + ([Digit(c, upper)] + rest), 16, 3, 0);
    OneDigit(b, upper, [Digit(c, upper)] + rest, 16, 2, 0 * 16 + a);
    OneDigit(c, upper, rest, 16, 1, (0 * 16 + a) * 16 + b);
    DigitsEnd(rest, 16, 0, ((0 * 16 + a) * 16 + b) * 16 + c);
  }

  lemma HexValue(a: nat, b: nat, c: nat, n: nat)
    requires n < 256 && b == n / 16 && c == n % 16
    ensures ((a * 16 + b) * 16 + c) % 256 == n
  {
    assert (a * 16 + b) * 16 + c == a * 256 + n;
  }

  // ----- what separates words -----

  /** Tab, line feed, vertical tab, form feed, carriage return, space. */
  predicate IsBlank(c: char) {
    9 <= c as int <= 13 || c as int == 32
  }

  predicate IsMark(c: char) {
    c as int == 123 || c as int == 125 || c as int == 35
  }

  /** Blanks in front of a word are skipped, and so is a comment with the end of its line. */
  lemma BlankIsSkipped(c: char, s: string, wantBrace: bool)
    requires IsBlank(c)
    ensures ReadWord([c] + s, wantBrace) == ReadWord(s, wantBrace)
  {
    assert ([c] + s)[1..] == s;
  }

  lemma {:induction false} CommentEnds(text: string, s: string)
    requires '\n' !in text
    ensures SkipComment(text + "\n" + s) == s && SkipComment(text) == ""
  {
    if text == "" {
      assert text + "\n" + s == "\n" + s;
    } else {
      CommentEnds(text[1..], s);
      assert (text + "\n" + s)[1..] == text[1..] + "\n" + s;
    }
  }

  lemma CommentIsSkipped(text: string, s: string, wantBrace: bool, nesting: nat)
    requires '\n' !in text
    ensures ReadWord("#" + (text + "\n" + s), wantBrace) == ReadWord(s, wantBrace)
    ensures ReadWord("#" + text, wantBrace) == EndOfFile
    ensures ReadBraced("#" + (text + "\n" + s), nesting) == ReadBraced(s, nesting)
  {
    CommentEnds(text, s);
    assert ("#" + (text + "\n" + s))[1..] == text + "\n" + s && ("#" + text)[1..] == text;
  }

  /** A word without quotes ends at the first blank, brace or comment, or with the file. */
  lemma {:induction false} PlainWordEnds(w: string, rest: string)
    requires forall i :: 0 <= i < |w| ==> !IsBlank(w[i]) && !IsMark(w[i]) && w[i] != '\\'
    requires rest == "" || IsBlank(rest[0]) || IsMark(rest[0])
    ensures ReadBare(w + rest) == Word(w, rest)
  {
    if w == "" {
      assert w + rest == rest;
    } else {
      TailOfConcat(w, rest);
      PlainWordEnds(w[1..], rest);
      assert [w[0]] + w[1..] == w;
    }
  }

  /** Up to the first NUL, if there is one, it is what the reader returns. */
  lemma PlainWordIsRead(w: string, rest: string, wantBrace: bool)
    requires w != "" && forall i :: 0 <= i < |w| ==> !IsBlank(w[i]) && !IsMark(w[i]) && w[i] != '\\'
    requires rest == "" || IsBlank(rest[0]) || IsMark(rest[0])
    ensures ReadWord(w + rest, wantBrace) == Word(CString(w), rest)
  {
    PlainWordEnds(w, rest);
    assert (w + rest)[0] == w[0];
  }

  lemma {:induction false} CStringStops(a: string, b: string)
    requires '\0' !in a
    ensures CString(a + "\0" + b) == a
  {
    if a == "" {
      assert a + "\0" + b == "\0" + b;
    } else {
      CStringStops(a[1..], b);
      assert (a + "\0" + b)[1..] == a[1..] + "\0" + b;
    }
  }

  /** A braced word the file ends in is an error; an escaped end of line in it is nothing. */
  lemma Unclosed(text: string, s: string, depth: nat)
    requires IsRaw(text)
    ensures ReadBraced(text, depth) == Unterminated
    ensures ReadBraced("\\\n" + s, depth) == ReadBraced(s, depth)
  {
    RawPasses(text, depth, "");
    assert text + "" == text;
    assert ("\\\n" + s)[1..] == "\n" + s && ("\n" + s)[1..] == s;
  }

  // ----- the printed forms -----

  predicate IsWordChar(c: char) {
    65 <= c as int <= 90 || 97 <= c as int <= 122 || 48 <= c as int <= 57 || c as int == 95
  }

  /** Letters, digits and underscores are printed as they are; everything else in braces,
      without change if it has no brace, backslash or number sign. */
  lemma PrintedForm(w: string)
    ensures w == "" ==> Quote(w) == "{}"
    ensures w != "" && (forall i :: 0 <= i < |w| ==> IsWordChar(w[i])) ==> Quote(w) == w
    ensures (exists i :: 0 <= i < |w| && !IsWordChar(w[i])) && IsRaw(w) ==> Quote(w) == "{" + w + "}"
  {
    if IsRaw(w) { RawIsNotEscaped(w, !Nested(w, 0)); }
    if i :| 0 <= i < |w| && !IsWordChar(w[i]) { assert !IsId(w[i]); }
  }

  lemma {:induction false} RawIsNotEscaped(w: string, mismatched: bool)
    requires IsRaw(w)
    ensures Escape(w, mismatched) == w
  {
    if w != "" {
      RawIsNotEscaped(w[1..], mismatched);
      assert [w[0]] + w[1..] == w;
    }
  }

  /** Number signs and backslashes are escaped, and braces only if they do not nest. */
  lemma EscapedForms()
    ensures Quote("#") == "{\\#}" && Quote("\\") == "{\\\\}"
    ensures Quote("{}") == "{{}}" && Quote("}{") == "{\\}\\{}"
  {
    OneCharForm('#');
    OneCharForm('\\');
    TwoCharForm('{', '}');
    TwoCharForm('}', '{');
  }

  lemma OneCharForm(c: char)
    requires c == '#' || c == '\\'
    ensures Quote([c]) == "{" + ['\\', c] + "}"
  {
    assert !IsId([c][0]) && [c][1..] == "";
    var m := !Nested([c], 0);
    assert Escape([c], m) == EscapeChar(c, m) + Escape("", m) == ['\\', c];
  }

  lemma TwoCharForm(c: char, d: char)
    requires (c == '{' && d == '}') || (c == '}' && d == '{')
    ensures Quote([c, d]) == if c == '{' then "{" + [c, d] + "}" else "{" + ['\\', c, '\\', d] + "}"
  {
    assert !IsId([c, d][0]) && [c, d][1..] == [d] && [d][1..] == "";
    var m := !Nested([c, d], 0);
    assert Nested("", 0) && (Nested([d], 1) <==> d == '}');
    assert Escape([d], m) == EscapeChar(d, m) + Escape("", m) == EscapeChar(d, m);
    assert Escape([c, d], m) == EscapeChar(c, m) + EscapeChar(d, m);
  }

  lemma BareForm(w: string)
    requires IsBare(w)
    ensures Quote(w) == w && WriteWord(true, w) == " " + w
  {
  }

  /** Two spaces for each level of nesting. */
  lemma Indents(n: nat)
    ensures |WriteIndent(n)| == 1 + 2 * n && WriteIndent(n)[0] == '\n' && forall i :: 1 <= i <= 2 * n ==> WriteIndent(n)[i] == ' '
    ensures WriteIndent(0) == "\n" && WriteIndent(1) == "\n  "
    ensures WriteClose(true, 0) == "\n}" && WriteClose(false, 1) == "}" && WriteOpen(true) == " {"
  {
    assert Spaces(0) == "" && Spaces(2) == "  ";
  }

  /** A node without properties and children on a line of its own, two spaces deep. */
  lemma PrintedLeaf(schema: Schema, kind: string, name: string, tail: string)
    requires kind in schema && !schema[kind].canHaveChildren && IsBare(kind) && IsBare(name)
    ensures NodesText(schema, [Node(kind, "", name, [], [])], 1, "", tail) == "\n  " + (kind + (" " + name + (" {" + ("}" + tail))))
  {
    var leaf := Node(kind, "", name, [], []);
    Indents(1);
    BareForm(kind);
    BareForm(name);
    assert [leaf][1..] == [] && "" + tail == tail;
    assert ChildrenText(schema, leaf, 1, tail) == tail;
    assert PropertiesText(schema[kind], [], false, 1, tail) == "}" + tail;
    assert BodyText(schema, leaf, 1, tail) == " " + name + (" {" + ("}" + tail));
  }

  /** A property that its type prints on a line of its own, one level deeper than the node. */
  lemma PrintedOnItsLine(info: TypeInfo, key: string, value: string, needspace: bool, tail: string)
    requires key in info.properties && info.properties[key].ownLine && IsBare(key) && IsBare(value)
    ensures PropertiesText(info, [Property(key, Some(value))], needspace, 0, tail) == "\n  " + (key + (" " + value + ("\n}" + tail)))
  {
    Indents(1);
    BareForm(key);
    BareForm(value);
    assert [Property(key, Some(value))][1..] == [];
    assert PropertiesText(info, [], true, 0, tail) == "\n}" + tail;
  }

  /** A class with a prefix, a flag, a property and a member: how the words follow each other. */
  lemma PrintedClass(schema: Schema, prefix: string, name: string, flag: string, key: string, value: string, member: Node, tail: string)
    requires "class" in schema && schema["class"].canHaveChildren
    requires flag !in schema["class"].properties && key !in schema["class"].properties
    requires IsBare(prefix) && IsBare(name) && IsBare(flag) && IsBare(key) && IsBare(value)
    ensures NodesText(schema, [Node("class", prefix, name, [Property(flag, None), Property(key, Some(value))], [member])], 0, "", tail)
         == "\n" + ("class" + (" " + prefix + (" " + name + (" {"
            + (flag + (" " + (key + (" " + value + ("\n}" + (" {" + NodesText(schema, [member], 1, "", "\n}" + tail)))))))))))
  {
    var info := schema["class"];
    var ps := [Property(flag, None), Property(key, Some(value))];
    var node := Node("class", prefix, name, ps, [member]);
    Indents(1);
    BareForm("class");
    BareForm(prefix);
    BareForm(name);
    BareForm(flag);
    BareForm(key);
    BareForm(value);
    var kids := " {" + NodesText(schema, [member], 1, "", "\n}" + tail);
    assert [node][1..] == [] && "" + tail == tail;
    assert ChildrenText(schema, node, 0, tail) == kids;
    assert ps[1..] == [ps[1]] && ps[1..][1..] == [];
    assert PropertiesText(info, [], true, 0, kids) == "\n}" + kids;
    assert PropertiesText(info, ps[1..], true, 0, kids) == " " + (key + (" " + value + ("\n}" + kids)));
    var lists := PropertiesText(info, ps, false, 0, kids);
    assert lists == "" + (flag + PropertiesText(info, ps[1..], true, 0, kids));
    assert "" + (flag + PropertiesText(info, ps[1..], true, 0, kids)) == flag + PropertiesText(info, ps[1..], true, 0, kids);
  }
}

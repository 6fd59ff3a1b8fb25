/** The characters of a .fl file. One char stands for one byte of the file. */
module FlCharacters {
  import opened Sequences

  /** A character of a C identifier; words made of these are written verbatim. */
  predicate IsId(c: char) {
    'a' <= c <= 'z' || 'A' <= c <= 'Z' || '0' <= c <= '9' || c == '_'
  }

  predicate IsSpace(c: char) {
    c == ' ' || c == '\n' || c == '\r' || c == '\t' || c as int == 11 || c as int == 12
  }

  /** What ends an unquoted word. */
  predicate EndsWord(c: char) {
    IsSpace(c) || c == '{' || c == '}' || c == '#'
  }

  predicate AllId(w: string) {
    forall i :: 0 <= i < |w| ==> IsId(w[i])
  }

  /** The reader fetches characters through a filter that drops every carriage return. */
  function StripCR(s: string): (r: string)
    ensures |r| <= |s|
  {
    if s == "" then "" else if s[0] == '\r' then StripCR(s[1..]) else [s[0]] + StripCR(s[1..])
  }

  lemma {:induction false} StripKeeps(s: string)
    ensures forall c :: c in StripCR(s) <==> c in s && c != '\r'
    ensures StripCR(s) == s <==> '\r' !in s
  {
    if s != "" {
      StripKeeps(s[1..]);
      assert s == [s[0]] + s[1..];
      if s[0] != '\r' { assert StripCR(s)[1..] == StripCR(s[1..]); }
    }
  }

  lemma TailOfConcat(a: string, b: string)
    requires a != ""
    ensures a + b != "" && (a + b)[0] == a[0] && (a + b)[1..] == a[1..] + b
  {
  }

  lemma {:induction false} StripConcat(a: string, b: string)
    ensures StripCR(a + b) == StripCR(a) + StripCR(b)
  {
    if a == "" {
      assert a + b == b;
    } else {
      TailOfConcat(a, b);
      StripConcat(a[1..], b);
      if a[0] != '\r' { Regroup([a[0]], StripCR(a[1..]), StripCR(b)); }
    }
  }

  /** A C string ends at its first NUL. */
  function CString(s: string): (r: string)
    ensures '\0' !in s ==> r == s
  {
    if s == "" || s[0] == '\0' then "" else [s[0]] + CString(s[1..])
  }

  function Value(digit: char): nat {
    if '0' <= digit <= '9' then digit as int - '0' as int
    else if 'A' <= digit <= 'Z' then digit as int - 'A' as int + 10
    else if 'a' <= digit <= 'z' then digit as int - 'a' as int + 10
    else 20
  }
}

/** fluid/io/Project_Writer.cxx: what the writer puts in the file. The argument
    `needspace` is the writer's flag: a space must precede the next word. */
module ProjectWriter {
  import opened FlCharacters

  /** The depth of braces never goes negative and ends at zero. */
  predicate Nested(w: string, depth: nat) {
    if w == "" then depth == 0
    else if w[0] == '{' then Nested(w[1..], depth + 1)
    else if w[0] == '}' then depth > 0 && Nested(w[1..], depth - 1)
    else Nested(w[1..], depth)
  }

  predicate NeedsEscape(c: char, mismatched: bool) {
    c == '\\' || c == '#' || (mismatched && (c == '{' || c == '}'))
  }

  function Escape(w: string, mismatched: bool): string {
    if w == "" then ""
    else EscapeChar(w[0], mismatched) + Escape(w[1..], mismatched)
  }

  function EscapeChar(c: char, mismatched: bool): string {
    if NeedsEscape(c, mismatched) then ['\\', c] else [c]
  }

  function Quote(w: string): (r: string)
    ensures r != ""
  {
    if w == "" then "{}" else if AllId(w) then w else "{" + Escape(w, !Nested(w, 0)) + "}"
  }

  function Space(needspace: bool): string {
    if needspace then " " else ""
  }

  function WriteWord(needspace: bool, w: string): string {
    Space(needspace) + Quote(w)
  }

  function Spaces(n: nat): (s: string)
    ensures |s| == n && forall i :: 0 <= i < n ==> s[i] == ' '
  {
    seq(n, _ => ' ')
  }

  function WriteIndent(n: nat): (s: string)
    ensures |s| > 0 && forall i :: 0 <= i < |s| ==> IsSpace(s[i])
  {
    "\n" + Spaces(2 * n)
  }

  function WriteOpen(needspace: bool): string {
    Space(needspace) + "{"
  }

  function WriteClose(needspace: bool, n: nat): string {
    (if needspace then WriteIndent(n) else "") + "}"
  }
}

/** fluid/io/Project_Reader.cxx: reading one word. All functions here see the text
    after the carriage returns are dropped; ReadFileWord starts from the file. */
module ProjectReader {
  import opened FlCharacters
  import opened Sequences

  datatype Word = EndOfFile | Unterminated | Word(text: string, rest: string)

  /** Up to `count` digits below `base`, continuing the number `n`. */
  function ReadDigits(s: string, base: nat, count: nat, n: nat): (r: (nat, string))
    ensures |r.1| <= |s|
    decreases count
  {
    if count == 0 || s == "" || Value(s[0]) >= base then (n, s)
    else ReadDigits(s[1..], base, count - 1, n * base + Value(s[0]))
  }

  /** What follows a backslash. None is the escaped end of line, which stands for nothing. */
  function ReadQuoted(s: string): (r: (Option<char>, string))
    ensures |r.1| <= |s| && (s != "" ==> |r.1| < |s|)
  {
    if s == "" then (None, "")
    else
      var c, rest := s[0], s[1..];
      if c == '\n' then (None, rest)
      else if c == 'a' then (Some(7 as char), rest)
      else if c == 'b' then (Some(8 as char), rest)
      else if c == 'f' then (Some(12 as char), rest)
      else if c == 'n' then (Some('\n'), rest)
      else if c == 'r' then (Some('\r'), rest)
      else if c == 't' then (Some('\t'), rest)
      else if c == 'v' then (Some(11 as char), rest)
      else if c == 'x' then
        var (n, rest') := ReadDigits(rest, 16, 3, 0);
        (Some((n % 256) as char), rest')
      else if '0' <= c <= '7' then
        var (n, rest') := ReadDigits(rest, 8, 2, Value(c));
        (Some((n % 256) as char), rest')
      else (Some(c), rest)
  }

  function SkipComment(s: string): (r: string)
    ensures |r| <= |s|
  {
    if s == "" then "" else if s[0] == '\n' then s[1..] else SkipComment(s[1..])
  }

  function SkipSpace(s: string): (r: string)
    ensures |r| <= |s|
    ensures r != "" ==> !IsSpace(r[0]) && r[0] != '#'
    decreases |s|
  {
    if s == "" then ""
    else if s[0] == '#' then SkipSpace(SkipComment(s[1..]))
    else if IsSpace(s[0]) then SkipSpace(s[1..])
    else s
  }

  function Prepend(c: char, w: Word): (r: Word)
    ensures r.Word? <==> w.Word?
    ensures r.Word? ==> r.rest == w.rest && r.text == [c] + w.text
  {
    if w.Word? then Word([c] + w.text, w.rest) else w
  }

  /** The inside of a braced word, up to the brace that closes it. */
  function ReadBraced(s: string, nesting: nat): (r: Word)
    ensures r.Word? ==> |r.rest| < |s|
    ensures !r.EndOfFile?
    decreases |s|
  {
    if s == "" then Unterminated
    else if s[0] == '#' then ReadBraced(SkipComment(s[1..]), nesting)
    else if s[0] == '\\' then
      var (c, rest) := ReadQuoted(s[1..]);
      if c.None? then ReadBraced(rest, nesting) else Prepend(c.value, ReadBraced(rest, nesting))
    else if s[0] == '{' then Prepend('{', ReadBraced(s[1..], nesting + 1))
    else if s[0] == '}' then
      if nesting == 0 then Word("", s[1..]) else Prepend('}', ReadBraced(s[1..], nesting - 1))
    else Prepend(s[0], ReadBraced(s[1..], nesting))
  }

  /** An unquoted word. An escaped end of line ends it. */
  function ReadBare(s: string): (r: Word)
    ensures r.Word? && |r.rest| <= |s|
    ensures s != "" && !EndsWord(s[0]) ==> |r.rest| < |s|
    decreases |s|
  {
    if s == "" then Word("", "")
    else if s[0] == '\\' then
      var (c, rest) := ReadQuoted(s[1..]);
      if c.None? then Word("", rest) else Prepend(c.value, ReadBare(rest))
    else if EndsWord(s[0]) then Word("", s)
    else Prepend(s[0], ReadBare(s[1..]))
  }

  /** With `wantBrace` a leading `{` is a word of its own, else it starts a braced word. */
  function ReadWord(s: string, wantBrace: bool): (r: Word)
    ensures r.Word? ==> |r.rest| < |s|
  {
    var t := SkipSpace(s);
    if t == "" then EndOfFile
    else if t[0] == '{' && !wantBrace then
      var w := ReadBraced(t[1..], 0);
      if w.Word? then Word(CString(w.text), w.rest) else w
    else if t[0] == '{' || t[0] == '}' then Word([t[0]], t[1..])
    else
      var w := ReadBare(t);
      Word(CString(w.text), w.rest)
  }

  function ReadFileWord(file: string, wantBrace: bool): Word {
    ReadWord(StripCR(file), wantBrace)
  }
}

/** Reading a word undoes writing it. */
module FluidWords {
  import opened FlCharacters
  import opened ProjectWriter
  import opened ProjectReader
  import opened Sequences

  /** A word that is written without braces must be followed by something that ends it. */
  predicate Delimits(rest: string) {
    rest == "" || EndsWord(rest[0])
  }

  predicate IsBare(w: string) {
    w != "" && AllId(w)
  }

  lemma {:induction false} SkipSpaceSkips(spaces: string, s: string)
    requires forall i :: 0 <= i < |spaces| ==> IsSpace(spaces[i])
    ensures SkipSpace(spaces + s) == SkipSpace(s)
  {
    if spaces == "" {
      assert spaces + s == s;
    } else {
      SkipSpaceSkips(spaces[1..], s);
      assert (spaces + s)[1..] == spaces[1..] + s;
    }
  }

  function PrependAll(t: string, w: Word): Word {
    if w.Word? then Word(t + w.text, w.rest) else w
  }

  lemma PrependStep(c: char, t: string, w: Word)
    ensures Prepend(c, PrependAll(t, w)) == PrependAll([c] + t, w)
  {
    if w.Word? { Regroup([c], t, w.text); }
  }

  lemma EscapedCharIsRead(c: char, tail: string, depth: nat)
    requires c == '\\' || c == '#' || c == '{' || c == '}'
    ensures ReadBraced(['\\', c] + tail, depth) == Prepend(c, ReadBraced(tail, depth))
  {
    var s := ['\\', c] + tail;
    assert s[1..] == [c] + tail;
    assert ReadQuoted(s[1..]) == (Some(c), tail);
  }

  lemma PlainCharIsRead(c: char, tail: string, depth: nat)
    requires c != '\\' && c != '#' && c != '}'
    ensures ReadBraced([c] + tail, depth) == Prepend(c, ReadBraced(tail, if c == '{' then depth + 1 else depth))
  {
    assert ([c] + tail)[1..] == tail;
  }

  lemma ClosingCharIsRead(tail: string, depth: nat)
    requires depth > 0
    ensures ReadBraced(['}'] + tail, depth) == Prepend('}', ReadBraced(tail, depth - 1))
  {
    assert (['}'] + tail)[1..] == tail;
  }

  /** Escaped text, and text whose braces nest, passes through the reader of a braced word
      and leaves it at the depth it had. `inner` counts the braces still open in w. */
  lemma {:induction false} EscapedPasses(w: string, mismatched: bool, inner: nat, depth: nat, tail: string)
    requires if mismatched then inner == 0 else Nested(w, inner)
    ensures ReadBraced(Escape(w, mismatched) + tail, depth + inner) == PrependAll(w, ReadBraced(tail, depth))
  {
    if w == "" {
      assert Escape(w, mismatched) + tail == tail;
    } else {
      var c := w[0];
      var inner' := if mismatched then 0 else if c == '{' then inner + 1 else if c == '}' then inner - 1 else inner;
      EscapedPasses(w[1..], mismatched, inner', depth, tail);
      CharPasses(c, mismatched, inner, depth, Escape(w[1..], mismatched) + tail, inner');
      Regroup(EscapeChar(c, mismatched), Escape(w[1..], mismatched), tail);
      PrependStep(c, w[1..], ReadBraced(tail, depth));
      assert w == [c] + w[1..];
    }
  }

  /** One character of it: `inner'` braces are open behind it. */
  lemma CharPasses(c: char, mismatched: bool, inner: nat, depth: nat, s: string, inner': nat)
    requires if mismatched then inner == inner' == 0 else c == '}' ==> inner > 0
    requires !mismatched ==> inner' == if c == '{' then inner + 1 else if c == '}' then inner - 1 else inner
    ensures ReadBraced(EscapeChar(c, mismatched) + s, depth + inner) == Prepend(c, ReadBraced(s, depth + inner'))
  {
    if NeedsEscape(c, mismatched) {
      EscapedCharIsRead(c, s, depth + inner);
    } else if c == '}' {
      ClosingCharIsRead(s, depth + inner);
    } else {
      PlainCharIsRead(c, s, depth + inner);
    }
  }

  lemma EscapedIsRead(w: string, mismatched: bool, rest: string)
    requires mismatched || Nested(w, 0)
    ensures ReadBraced(Escape(w, mismatched) + "}" + rest, 0) == Word(w, rest)
  {
    Regroup(Escape(w, mismatched), "}", rest);
    EscapedPasses(w, mismatched, 0, 0, "}" + rest);
    assert ("}" + rest)[1..] == rest;
  }

  lemma {:induction false} BareIsRead(w: string, rest: string)
    requires AllId(w) && Delimits(rest)
    ensures ReadBare(w + rest) == Word(w, rest)
  {
    if w == "" {
      assert w + rest == rest;
    } else {
      BareIsRead(w[1..], rest);
      TailOfConcat(w, rest);
    }
  }

  /** Reading on: a bare word swallows whatever follows it and does not end it. */
  lemma {:induction false} BareRunsOn(w: string, rest: string)
    requires AllId(w) && !Delimits(rest)
    ensures |ReadBare(w + rest).rest| < |rest|
  {
    if w == "" {
      assert w + rest == rest;
    } else {
      BareRunsOn(w[1..], rest);
      TailOfConcat(w, rest);
    }
  }

  lemma SpaceIsSkipped(needspace: bool, s: string)
    ensures SkipSpace(Space(needspace) + s) == SkipSpace(s)
  {
    SkipSpaceSkips(Space(needspace), s);
  }

  lemma BraceOpens(needspace: bool, inner: string)
    requires ReadBraced(inner, 0).Word?
    ensures ReadWord(Space(needspace) + (['{'] + inner), false)
         == Word(CString(ReadBraced(inner, 0).text), ReadBraced(inner, 0).rest)
  {
    var s := ['{'] + inner;
    SpaceIsSkipped(needspace, s);
    assert SkipSpace(s) == s && s[1..] == inner;
  }

  lemma BracedIsRead(needspace: bool, w: string, mismatched: bool, rest: string)
    requires '\0' !in w && (mismatched || Nested(w, 0))
    ensures ReadWord(Space(needspace) + ("{" + Escape(w, mismatched) + "}") + rest, false) == Word(w, rest)
  {
    var escaped := Escape(w, mismatched);
    EscapedIsRead(w, mismatched, rest);
    var inner := escaped + "}" + rest;
    Regroup("{", escaped, "}");
    Regroup("{", escaped + "}", rest);
    Regroup(Space(needspace), "{" + escaped + "}", rest);
    BraceOpens(needspace, inner);
  }

  lemma BareWordIsRead(needspace: bool, w: string, rest: string, wantBrace: bool)
    requires '\0' !in w && IsBare(w)
    ensures Delimits(rest) ==> ReadWord(Space(needspace) + w + rest, wantBrace) == Word(w, rest)
    ensures !Delimits(rest) ==> var r := ReadWord(Space(needspace) + w + rest, wantBrace); r.Word? && |r.rest| < |rest|
  {
    var s := w + rest;
    assert Space(needspace) + w + rest == Space(needspace) + s;
    SpaceIsSkipped(needspace, s);
    assert s[0] == w[0] && SkipSpace(s) == s;
    if Delimits(rest) { BareIsRead(w, rest); } else { BareRunsOn(w, rest); }
  }

  /** Main result for words, on text without carriage returns: what the writer prints for
      a word reads back as that word and leaves the rest, except that a bare word must be
      followed by something that ends it. */
  lemma WordRoundTrip(needspace: bool, w: string, rest: string)
    requires '\0' !in w
    ensures ReadWord(WriteWord(needspace, w) + rest, false) == Word(w, rest) <==> !IsBare(w) || Delimits(rest)
  {
    if IsBare(w) {
      BareWordIsRead(needspace, w, rest, false);
    } else {
      BracedIsRead(needspace, w, !Nested(w, 0), rest);
      assert Quote(w) == "{" + Escape(w, !Nested(w, 0)) + "}";
    }
  }

  /** A lone brace is a word. */
  lemma BraceIsRead(needspace: bool, c: char, rest: string, wantBrace: bool)
    requires c == '}' || (c == '{' && wantBrace)
    ensures ReadWord(Space(needspace) + [c] + rest, wantBrace) == Word([c], rest)
  {
    var s := [c] + rest;
    assert Space(needspace) + [c] + rest == Space(needspace) + s;
    SpaceIsSkipped(needspace, s);
    assert SkipSpace(s) == s && s[1..] == rest;
  }

  /** Where a lone brace is wanted, a word that is written in braces is not read as a word. */
  lemma WordWhereBraceWanted(needspace: bool, w: string, rest: string)
    requires '\0' !in w
    ensures IsBare(w) && Delimits(rest) ==> ReadWord(WriteWord(needspace, w) + rest, true) == Word(w, rest)
    ensures !IsBare(w) ==> ReadWord(WriteWord(needspace, w) + rest, true) == Word("{", Quote(w)[1..] + rest)
  {
    if IsBare(w) {
      BareWordIsRead(needspace, w, rest, true);
    } else {
      var q := Quote(w);
      assert q == ['{'] + q[1..];
      Regroup(Space(needspace), ['{'], q[1..]);
      Regroup(Space(needspace) + ['{'], q[1..], rest);
      BraceIsRead(needspace, '{', q[1..] + rest, true);
    }
  }

  // ----- carriage returns -----

  lemma {:induction false} EscapeStrips(w: string, mismatched: bool)
    ensures StripCR(Escape(w, mismatched)) == Escape(StripCR(w), mismatched)
  {
    if w != "" {
      EscapeStrips(w[1..], mismatched);
      var c := w[0];
      var head := if NeedsEscape(c, mismatched) then ['\\', c] else [c];
      StripConcat(head, Escape(w[1..], mismatched));
      if c != '\r' {
        assert '\r' !in head;
        assert StripCR(w)[1..] == StripCR(w[1..]);
      }
    }
  }

  lemma {:induction false} NestedStrips(w: string, depth: nat)
    ensures Nested(StripCR(w), depth) == Nested(w, depth)
  {
    if w != "" {
      NestedStrips(w[1..], depth);
      NestedStrips(w[1..], depth + 1);
      if depth > 0 { NestedStrips(w[1..], depth - 1); }
      if w[0] != '\r' { assert StripCR(w)[1..] == StripCR(w[1..]); }
    }
  }

  lemma QuoteStrips(w: string)
    ensures IsBare(w) ==> StripCR(Quote(w)) == w
    ensures !IsBare(w) ==> StripCR(Quote(w)) == "{" + Escape(StripCR(w), !Nested(w, 0)) + "}"
  {
    if IsBare(w) {
      StripKeeps(w);
    } else {
      var inner := Escape(w, !Nested(w, 0));
      assert Quote(w) == "{" + (inner + "}");
      EscapeStrips(w, !Nested(w, 0));
      StripConcat(inner, "}");
      StripConcat("{", inner + "}");
      StripKeeps("{");
      StripKeeps("}");
    }
  }

  lemma WrittenWordStrips(needspace: bool, w: string, rest: string)
    ensures StripCR(WriteWord(needspace, w) + rest) == Space(needspace) + StripCR(Quote(w)) + StripCR(rest)
  {
    StripConcat(WriteWord(needspace, w), rest);
    StripConcat(Space(needspace), Quote(w));
    StripKeeps(Space(needspace));
  }

  /** Any word, through the file: the reader returns the word without its carriage
      returns, so it returns the word itself exactly when there are none. */
  lemma FileWordRoundTrip(needspace: bool, w: string, rest: string)
    requires '\0' !in w
    requires IsBare(w) ==> Delimits(StripCR(rest))
    ensures ReadFileWord(WriteWord(needspace, w) + rest, false) == Word(StripCR(w), StripCR(rest))
    ensures ReadFileWord(WriteWord(needspace, w) + rest, false) == Word(w, StripCR(rest)) <==> '\r' !in w
  {
    WrittenWordStrips(needspace, w, rest);
    QuoteStrips(w);
    StripKeeps(w);
    NestedStrips(w, 0);
    if IsBare(w) {
      BareWordIsRead(needspace, w, StripCR(rest), false);
    } else {
      BracedIsRead(needspace, StripCR(w), !Nested(w, 0), StripCR(rest));
    }
  }
}

/** Blocks of the option list, such as `snap` and `shell_commands`, that a reader may skip. */
module FluidBlocks {
  import opened FlCharacters
  import opened ProjectWriter
  import opened ProjectReader
  import opened FluidWords
  import opened Sequences

  /** A block is made of text without special characters, written words, and inner blocks. */
  datatype Piece = Raw(text: string) | Quoted(word: string) | Group(pieces: seq<Piece>)

  predicate IsSpecial(c: char) {
    c == '{' || c == '}' || c == '\\' || c == '#'
  }

  predicate IsRaw(text: string) {
    forall i :: 0 <= i < |text| ==> !IsSpecial(text[i])
  }

  predicate ValidPieces(ps: seq<Piece>) {
    forall i :: 0 <= i < |ps| ==> ValidPiece(ps[i])
  }

  predicate ValidPiece(p: Piece) {
    match p
    case Raw(text) => IsRaw(text)
    case Quoted(_) => true
    case Group(pieces) => ValidPieces(pieces)
  }

  function PieceText(p: Piece): string {
    match p
    case Raw(text) => text
    case Quoted(word) => Quote(word)
    case Group(pieces) => "{" + PiecesText(pieces) + "}"
  }

  function PiecesText(ps: seq<Piece>): string {
    if ps == [] then "" else PieceText(ps[0]) + PiecesText(ps[1..])
  }

  /** What a reader that takes the block for a word sees: the text with the escapes undone. */
  function Seen(p: Piece): string {
    match p
    case Raw(text) => text
    case Quoted(word) => if IsBare(word) then word else "{" + word + "}"
    case Group(pieces) => "{" + SeenAll(pieces) + "}"
  }

  function SeenAll(ps: seq<Piece>): string {
    if ps == [] then "" else Seen(ps[0]) + SeenAll(ps[1..])
  }

  lemma PrependTwice(a: string, b: string, w: Word)
    ensures PrependAll(a, PrependAll(b, w)) == PrependAll(a + b, w)
  {
    if w.Word? { Regroup(a, b, w.text); }
  }

  lemma {:induction false} RawPasses(text: string, depth: nat, tail: string)
    requires IsRaw(text)
    ensures ReadBraced(text + tail, depth) == PrependAll(text, ReadBraced(tail, depth))
  {
    if text == "" {
      assert text + tail == tail;
    } else {
      RawPasses(text[1..], depth, tail);
      Regroup([text[0]], text[1..], tail);
      PlainCharIsRead(text[0], text[1..] + tail, depth);
      assert [text[0]] + text[1..] == text;
      PrependStep(text[0], text[1..], ReadBraced(tail, depth));
    }
  }

  /** Braces around text that passes through leave the depth as it was. */
  lemma BracesPass(body: string, seen: string, depth: nat, tail: string)
    requires ReadBraced(body + ("}" + tail), depth + 1) == PrependAll(seen, ReadBraced("}" + tail, depth + 1))
    ensures ReadBraced("{" + body + "}" + tail, depth) == PrependAll("{" + seen + "}", ReadBraced(tail, depth))
  {
    var w := ReadBraced(tail, depth);
    Regroup("{", body, "}");
    Regroup("{", body + "}", tail);
    Regroup(body, "}", tail);
    PlainCharIsRead('{', body + ("}" + tail), depth);
    ClosingCharIsRead(tail, depth + 1);
    assert PrependAll("}", w) == Prepend('}', w);
    PrependTwice(seen, "}", w);
    PrependTwice("{", seen + "}", w);
    assert Prepend('{', PrependAll(seen + "}", w)) == PrependAll("{", PrependAll(seen + "}", w));
    Regroup("{", seen, "}");
  }

  lemma BareIsRaw(w: string)
    requires AllId(w)
    ensures IsRaw(w)
  {
  }

  lemma {:induction false} PiecePasses(p: Piece, depth: nat, tail: string)
    requires ValidPiece(p)
    ensures ReadBraced(PieceText(p) + tail, depth) == PrependAll(Seen(p), ReadBraced(tail, depth))
    decreases p
  {
    match p
    case Raw(text) => RawPasses(text, depth, tail);
    case Quoted(word) =>
      if IsBare(word) {
        BareIsRaw(word);
        RawPasses(word, depth, tail);
      } else {
        var escaped := Escape(word, !Nested(word, 0));
        assert Quote(word) == "{" + escaped + "}";
        EscapedPasses(word, !Nested(word, 0), 0, depth + 1, "}" + tail);
        BracesPass(escaped, word, depth, tail);
      }
    case Group(pieces) =>
      PiecesPass(pieces, depth + 1, "}" + tail);
      BracesPass(PiecesText(pieces), SeenAll(pieces), depth, tail);
  }

  lemma {:induction false} PiecesPass(ps: seq<Piece>, depth: nat, tail: string)
    requires ValidPieces(ps)
    ensures ReadBraced(PiecesText(ps) + tail, depth) == PrependAll(SeenAll(ps), ReadBraced(tail, depth))
    decreases ps
  {
    var w := ReadBraced(tail, depth);
    if ps == [] {
      assert PiecesText(ps) + tail == tail;
    } else {
      Regroup(PieceText(ps[0]), PiecesText(ps[1..]), tail);
      PiecePasses(ps[0], depth, PiecesText(ps[1..]) + tail);
      PiecesPass(ps[1..], depth, tail);
      PrependTwice(Seen(ps[0]), SeenAll(ps[1..]), w);
    }
  }

  function BlockText(needspace: bool, ps: seq<Piece>): string {
    Space(needspace) + ("{" + PiecesText(ps) + "}")
  }

  /** Main result for blocks: read as one word, a block is consumed up to its own closing
      brace and no further, whatever braces its inner words hold. */
  lemma BlockIsOneWord(needspace: bool, ps: seq<Piece>, rest: string)
    requires ValidPieces(ps)
    ensures ReadWord(BlockText(needspace, ps) + rest, false) == Word(CString(SeenAll(ps)), rest)
  {
    var body := PiecesText(ps);
    PiecesPass(ps, 0, "}" + rest);
    assert ("}" + rest)[1..] == rest;
    assert ReadBraced("}" + rest, 0) == Word("", rest);
    assert ReadBraced(body + ("}" + rest), 0) == Word(SeenAll(ps), rest);
    Regroup("{", body, "}");
    Regroup("{", body + "}", rest);
    Regroup(body, "}", rest);
    Regroup(Space(needspace), "{" + body + "}", rest);
    BraceOpens(needspace, body + ("}" + rest));
  }
}

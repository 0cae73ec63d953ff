/** From source text to syntax tree: the lexer, then the parser. */
module FrontEnd {
  import opened Wrappers
  import opened Ast
  import opened SourceLines
  import opened LexerRules
  import opened Grammar
  import opened Printing
  import opened PrintedTokens
  import opened Spelling
  import opened TextLayout
  import L = Lexer
  import P = Parser

  /** What a source text means. */
  function Meaning(source: string): Option<seq<Declaration>> {
    if Tokens(source, 0).None? then None
    else
      TokensEndOnce(source, 0);
      ParseProgram(P.Lexemes(Tokens(source, 0).value), [])
  }

  /** Reading always ends, with the meaning of the text or an error. */
  method Read(source: string) returns (r: Option<seq<Declaration>>)
    ensures r == Meaning(source)
  {
    hide Tokens, ParseProgram;
    var lexer := new L.Lexer(source);
    var tokens := lexer.Tokenize();
    if tokens.None? {
      return None;
    }
    var parser := new P.Parser(tokens.value);
    r := parser.ReadProgram();
  }

  /** The meaning of a text is the meaning of its tokens, wherever they stand. */
  lemma MeaningOfLexemes(source: string)
    ensures LexemesOf(source).Some? ==> Terminated(LexemesOf(source).value)
    ensures Meaning(source)
         == match LexemesOf(source)
            case None => None
            case Some(lexemes) => ParseProgram(lexemes, [])
  {
    if Tokens(source, 0).Some? {
      TokensEndOnce(source, 0);
      assert P.Lexemes(Tokens(source, 0).value) == Bare(Tokens(source, 0).value);
    }
  }

  /** A blank or a comment in front of a text does not change its meaning. */
  lemma PieceMeansNothing(piece: Piece, source: string)
    requires IsPiece(piece)
    ensures Meaning(WritePiece(piece) + source) == Meaning(source)
  {
    hide Meaning, LexemesOf, ParseProgram, WritePiece, IsPiece;
    PieceSkipped(piece, source);
    MeaningOfLexemes(source);
    MeaningOfLexemes(WritePiece(piece) + source);
  }

  /** A program printed, laid out as text with any blanks and comments, lexed and parsed is the program. */
  lemma ReadingUndoesRendering(declarations: seq<Declaration>, gaps: seq<seq<Piece>>, tail: string)
    requires LegalProgram(declarations) && NamedProgram(declarations)
    requires WellLaid(PutProgram(declarations), gaps, tail)
    ensures Meaning(Lay(PutProgram(declarations), gaps, tail)) == Some(declarations)
  {
    ProgramSpelled(declarations);
    hide PutProgram, ParseProgram, LexemesOf, Meaning, AllSpelled, LegalDeclaration, NamedDeclaration, Lay, WellLaid;
    LayoutLexes(PutProgram(declarations), gaps, tail);
    MeaningOfLexemes(Lay(PutProgram(declarations), gaps, tail));
    ParsingUndoesPrinting(declarations);
  }

  /** What a text means depends on its tokens alone: any layout of them means the same. */
  lemma LayoutMeansNothing(source: string, gaps: seq<seq<Piece>>, tail: string)
    requires LexemesOf(source).Some?
    ensures Terminated(LexemesOf(source).value)
    ensures AllSpelled(LexemesOf(source).value)
    ensures WellLaid(LexemesOf(source).value, gaps, tail) ==>
      Meaning(Lay(LexemesOf(source).value, gaps, tail)) == Meaning(source)
  {
    MeaningOfLexemes(source);
    LexedAreSpelled(source, 0);
    hide Meaning, LexemesOf, ParseProgram, Lay, WellLaid, Spelled;
    var input: Input := LexemesOf(source).value;
    if WellLaid(input, gaps, tail) {
      LayoutLexes(input, gaps, tail);
      MeaningOfLexemes(Lay(input, gaps, tail));
    }
  }
}

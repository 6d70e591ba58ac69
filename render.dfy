/** The body of create_pdf for one file: the tokens of the file turned into
    the ordered calls it makes on the FPDF object. Each call is an Instr;
    fonts are always Courier at size 10, so only the style letters vary. */
module Render {
  import opened Strings
  import opened Colors

  /** Colour of the line-number labels, independent of the theme. */
  const Gray := Rgb(128, 128, 128)

  /** What the theme says about one token kind, colour already converted. */
  datatype Style = Style(color: Rgb, bold: bool, italic: bool)

  datatype Token<K> = Token(kind: K, text: string)

  datatype Instr =
    | SetFont(style: string)   // pdf.set_font('Courier', style, 10)
    | SetColor(color: Rgb)     // pdf.set_text_color(r, g, b)
    | Label(line: nat)         // pdf.cell(12, line_height, LabelText(line))
    | Write(text: string)      // pdf.write(line_height, text)
    | Ln                       // pdf.ln(line_height)

  /** The FPDF style letters for a token: 'B' exactly when bold, 'I'
      exactly when italic, 'B' first. */
  function FontStyle(bold: bool, italic: bool): string
  {
    if bold && italic then "BI" else if bold then "B" else if italic then "I" else ""
  }

  /** The style letters are '', 'B', 'I' or 'BI': 'B' exactly when bold,
      'I' exactly when italic, 'B' first. */
  lemma FontStyleSpec(bold: bool, italic: bool)
    ensures var r := FontStyle(bold, italic);
      r in {"", "B", "I", "BI"} && ('B' in r) == bold && ('I' in r) == italic
  {
  }

  /** f"{line:4d} ": the number right-aligned in four columns, padded with
      spaces (wider when it has more digits), then one space. */
  function LabelText(line: nat): (r: string)
    ensures |r| >= 5 && r[|r| - 1] == ' '
  {
    var d := Decimal(line);
    Spaces(if |d| < 4 then 4 - |d| else 0) + d + " "
  }

  /** A painted piece of a line: nothing for an empty piece. */
  function WriteIf(piece: string): seq<Instr>
  {
    if piece == "" then [] else [Write(Latin1(piece))]
  }

  /** The calls after a newline inside a token of colour c: break the line,
      paint the label of the new line in gray, go back to c. */
  function LineBreak(c: Rgb, line: nat): seq<Instr>
  {
    [Ln, SetColor(Gray), Label(line), SetColor(c)]
  }

  /** The calls for piece j (counted from 1) of a token of style st that
      starts on line n: its run and, unless it is the last piece, a line
      break to line n + j. */
  function PieceInstrs(pieces: seq<string>, j: nat, st: Style, n: nat): seq<Instr>
    requires 1 <= j <= |pieces|
  {
    WriteIf(pieces[j - 1]) + (if j < |pieces| then LineBreak(st.color, n + j) else [])
  }

  /** The calls made for a token of style st that starts on line n, once
      its first j pieces are done: font and colour of the token, then each
      piece in turn. */
  function TokenUpTo(pieces: seq<string>, j: nat, st: Style, n: nat): seq<Instr>
    requires j <= |pieces|
  {
    if j == 0 then [SetFont(FontStyle(st.bold, st.italic)), SetColor(st.color)]
    else TokenUpTo(pieces, j - 1, st, n) + PieceInstrs(pieces, j, st, n)
  }

  /** The calls for one token of style st that starts on line n. */
  function TokenInstrs(text: string, st: Style, n: nat): seq<Instr>
  {
    var pieces := Split(text);
    TokenUpTo(pieces, |pieces|, st, n)
  }

  /** The text of a token sequence. */
  function AllText<K>(ts: seq<Token<K>>): string
    decreases |ts|
  {
    if ts == [] then "" else AllText(ts[..|ts| - 1]) + ts[|ts| - 1].text
  }

  /** Courier regular, then the label of line 1 in gray, then the theme's
      default text colour. */
  function Prologue(defaultColor: Rgb): seq<Instr>
  {
    [SetFont(""), SetColor(Gray), Label(1), SetColor(defaultColor)]
  }

  /** The calls made for a file once the tokens ts are done: the prologue,
      then each token on the line its predecessors' newlines bring it to. */
  function Emitted<K>(ts: seq<Token<K>>, styleOf: K -> Style, defaultColor: Rgb): seq<Instr>
    decreases |ts|
  {
    if ts == [] then Prologue(defaultColor)
    else
      var init := ts[..|ts| - 1];
      var last := ts[|ts| - 1];
      Emitted(init, styleOf, defaultColor)
        + TokenInstrs(last.text, styleOf(last.kind), 1 + Count(AllText(init), '\n'))
  }

  /** Every call the renderer makes for one file. */
  function RenderFile<K>(ts: seq<Token<K>>, styleOf: K -> Style, defaultColor: Rgb): seq<Instr>
  {
    Emitted(ts, styleOf, defaultColor) + [SetColor(defaultColor)]
  }

  /** One pass of the outer loop of create_pdf (lines 64-85): the calls
      made for one token that starts on line n, and line_num afterwards. */
  method RenderToken(text: string, st: Style, n: nat) returns (out: seq<Instr>, lineNum: nat)
    ensures out == TokenInstrs(text, st, n)
    ensures lineNum == n + Count(text, '\n')
  {
    var color := st.color;
    var fontStyle := "";
    if st.bold {
      fontStyle := fontStyle + "B";
    }
    if st.italic {
      fontStyle := fontStyle + "I";
    }
    assert fontStyle == FontStyle(st.bold, st.italic);
    out := [SetFont(fontStyle), SetColor(color)];

    lineNum := n;
    var lines := Split(text);
    for j := 0 to |lines|
      invariant out == TokenUpTo(lines, j, st, n)
      invariant lineNum == n + (if j == |lines| then j - 1 else j)
    {
      ghost var before := out;
      if lines[j] != "" {
        out := out + [Write(Latin1(lines[j]))];
      }
      if j < |lines| - 1 {
        // pdf.ln, line_num += 1, then the gray label and the token's colour
        lineNum := lineNum + 1;
        out := out + LineBreak(color, lineNum);
      }
      assert out == before + PieceInstrs(lines, j + 1, st, n);
    }
  }

  /** One more token: its calls follow those of the tokens before it, on
      the line their newlines bring it to. */
  lemma EmittedStep<K>(tokens: seq<Token<K>>, styleOf: K -> Style, defaultColor: Rgb, i: nat)
    requires i < |tokens|
    ensures AllText(tokens[..i + 1]) == AllText(tokens[..i]) + tokens[i].text
    ensures Emitted(tokens[..i + 1], styleOf, defaultColor) ==
      Emitted(tokens[..i], styleOf, defaultColor)
        + TokenInstrs(tokens[i].text, styleOf(tokens[i].kind), 1 + Count(AllText(tokens[..i]), '\n'))
  {
    assert tokens[..i + 1][..i] == tokens[..i];
  }

  /** The rendering part of create_pdf (lines 54-87): out is the calls made,
      in order, and lineNum the final value of line_num. */
  method RenderTokens<K>(tokens: seq<Token<K>>, styleOf: K -> Style, defaultColor: Rgb)
    returns (out: seq<Instr>, lineNum: nat)
    ensures out == RenderFile(tokens, styleOf, defaultColor)
    ensures lineNum == 1 + Count(AllText(tokens), '\n')
  {
    out := [SetFont("")];
    lineNum := 1;
    out := out + [SetColor(Gray)];
    out := out + [Label(lineNum)];
    out := out + [SetColor(defaultColor)];

    for i := 0 to |tokens|
      invariant out == Emitted(tokens[..i], styleOf, defaultColor)
      invariant lineNum == 1 + Count(AllText(tokens[..i]), '\n')
    {
      var st := styleOf(tokens[i].kind);
      var instrs, next := RenderToken(tokens[i].text, st, lineNum);
      EmittedStep(tokens, styleOf, defaultColor, i);
      CountAppend(AllText(tokens[..i]), tokens[i].text, '\n');
      out := out + instrs;
      lineNum := next;
    }
    assert tokens[..|tokens|] == tokens;
    out := out + [SetColor(defaultColor)];
  }
}

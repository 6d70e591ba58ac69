# gen_pdf in Dafny

`gen_pdf.py` renders a directory of source files into one PDF. Each file
gets its own page(s), with Pygments syntax colouring and running line
numbers. This project models the parts of that script that are its own
logic. It treats FPDF, Pygments and the file system as collaborators that
are outside the model.

- **The token renderer** (`Render`, `render.dfy`). This is the body of
  `create_pdf` for one file. It turns the file's ordered `(kind, text)`
  tokens into the ordered FPDF calls the script makes, as a `seq<Instr>`:
  - `SetFont(style)`: `set_font('Courier', style, 10)`.
  - `SetColor(rgb)`: `set_text_color`.
  - `Label(n)`: the gray line-number cell `f"{n:4d} "`.
  - `Write(text)`: `write`.
  - `Ln`: `ln`.

  `RenderTokens` is the loop itself. It is written as a method that
  appends to the call sequence and counts `line_num`. One pass of its
  loop over the tokens is `RenderToken`: the token's font and colour, then
  the inner loop over the newline-separated pieces of the token. Both are
  proved equal to the specification functions `RenderFile` and
  `TokenInstrs`.
- **What the call stream promises** (`RenderProperties`,
  `render_properties.dfy`). These are lemmas about `RenderFile`:
  - the labels are numbered 1, 2, … with one label and one line break per
    newline;
  - inside a multi-line token, every label is gray and is followed by the
    token's own colour;
  - every run is painted in its token's colour and font style;
  - runs are non-empty and newline-free;
  - the runs, with `'\n'` at each line break, rebuild the tokens' text;
  - the stream starts with the prologue and ends with the default colour.
- **`hex_to_rgb`** (`Colors`, `colors.dfy`). This parses a theme colour
  string, including the `ValueError` that `int(…, 16)` raises.
- **The `find_files` filter** (`FindFiles`, `find_files.dfy`). It tests a
  case-sensitive suffix with `str.endswith(tuple)`, joins with
  `os.path.join`, and keeps the order of the walk.
- `Strings` (`strings.dfy`) holds `str.split('\n')` and its inverse
  `'\n'.join`, the latin-1 "replace" round trip, and decimal numerals.
  `Wrappers` holds `Option`.

Facts about the code that the model keeps:
- The line-number label `f"{n:4d} "` right-aligns the number in four
  columns.
- `find_files` filters on extensions only. With extensions `[".py"]`,
  both `a.py` and `a_test.py` are kept (`FindFiles.FilterExample`).
- The code font is always Courier.

The theme's style lookup is a parameter `styleOf: K -> Style`. It gives
the colour (already converted to a triple) and the bold and italic flags
of a token kind. The theme's default text colour is also a parameter.

## Model

| member | source | states |
|---|---|---|
| `Render.RenderTokens` | gen_pdf.py:54-87 | The calls made for a file are exactly `RenderFile(tokens)`. The final `line_num` is 1 plus the number of newlines in all token texts. |
| `Render.RenderToken` | gen_pdf.py:63-85 | The calls made for one token starting on line n are `TokenInstrs`. `line_num` ends at n plus the token's newline count. |
| `Render.FontStyleSpec` | gen_pdf.py:67-71 | The font style is `''`, `'B'`, `'I'` or `'BI'`. It contains `'B'` iff bold and `'I'` iff italic. |
| `Render.LabelText` | gen_pdf.py:84 | A label is at least 5 characters and ends with a space. |
| `RenderProperties.FileFrame` | gen_pdf.py:54-87 | A file's calls start with Courier regular, gray, `Label(1)` and the default colour. They end with the default colour. |
| `RenderProperties.FileLines` | gen_pdf.py:57-84 | A file's labels are exactly 1, 2, …, 1+N, where N is the number of newlines in its text. There are exactly N line breaks. |
| `RenderProperties.TokenLines` | gen_pdf.py:76-84 | A token with k newlines makes exactly k labels, numbered n+1 … n+k. It makes exactly k line breaks. |
| `RenderProperties.TokenFramed` | gen_pdf.py:80-85 | Inside a token, every label comes right after a switch to gray. It is followed at once by the token's own colour. |
| `RenderProperties.FileLabelsPlaced` | gen_pdf.py:57-84 | Every label of a file is on line 1 plus the number of `Ln` calls before it. Every label past line 1 comes right after `Ln` and the switch to gray. |
| `RenderProperties.TokenLabelsPlaced` | gen_pdf.py:76-84 | Inside a token starting on line n, every label is on line n plus the `Ln` calls before it. It comes right after `Ln` and the switch to gray. |
| `RenderProperties.TokenColors` | gen_pdf.py:74-85 | Every run of a token is painted in that token's colour, on continuation lines too. |
| `RenderProperties.TokenFont` | gen_pdf.py:73 | A token sets its font style once, first. Everything after it is in that style. |
| `RenderProperties.FileTokenStyle` | gen_pdf.py:63-85 | Across a whole file, token i's runs are in token i's colour and font. Its labels are gray, then back to token i's colour. |
| `RenderProperties.FileClean` | gen_pdf.py:76-79 | Every `Write` of a file is non-empty and has no newline. |
| `RenderProperties.TokenClean` | gen_pdf.py:76-79 | Every `Write` of a token is non-empty and has no newline. |
| `RenderProperties.FileRebuild` | gen_pdf.py:76-81 | The runs joined, with a newline at each `Ln`, equal the tokens' text, all tokens in order, after the latin-1 round trip. |
| `RenderProperties.TokenRebuild` | gen_pdf.py:76-81 | A token's runs and breaks rebuild its text after the latin-1 round trip. |
| `RenderProperties.SingleLineToken` | gen_pdf.py:73-79 | A token without newlines makes its font, its colour and one run, or no run when empty. It makes no label and no break. |
| `RenderProperties.TwoLineToken` | gen_pdf.py:76-85 | `"a\nb"` makes run a, `Ln`, gray, `Label(n+1)`, the token colour, then run b. |
| `RenderProperties.EmittedPrefix` | gen_pdf.py:63-85 | The calls for a prefix of the tokens are a prefix of the file's calls. |
| `RenderProperties.LabelTextShape` | gen_pdf.py:59 | The label starts with exactly 4 minus the numeral's length spaces (none from 4 digits on). The numeral follows and a space ends it. It is 5 characters below 10000. |
| `RenderProperties.LabelTextInjective` | gen_pdf.py:84 | Different line numbers give different label texts. |
| `Strings.Split` | gen_pdf.py:76 | `split('\n')` gives one more piece than there are newlines. |
| `Strings.SplitNewlineFreePieces` | gen_pdf.py:76 | No piece of `split('\n')` holds a newline. |
| `Strings.JoinSplit` | gen_pdf.py:76 | Joining the pieces with newlines gives the text back. |
| `Strings.SplitJoin` | gen_pdf.py:76 | Splitting newline-free pieces joined by newlines gives the pieces back. |
| `Strings.Latin1` | gen_pdf.py:79 | The latin-1 "replace" round trip keeps the length. |
| `Strings.Latin1Newlines` | gen_pdf.py:79 | The round trip neither adds nor removes newlines. |
| `Strings.Latin1Identity` | gen_pdf.py:79 | Latin-1 text comes through unchanged. |
| `Strings.ParseDecimalOfDecimal` | gen_pdf.py:59 | The numeral in a label reads back as the line number. |
| `Strings.Decimal` | gen_pdf.py:59 | `str(n)` is non-empty and all digits. It starts with `0` only for 0. |
| `Colors.NoneIsBlack` | gen_pdf.py:18-19 | No colour gives black. |
| `Colors.HexToRgb` | gen_pdf.py:16-25 | An error names a two-character pair that `int(…, 16)` rejects. The other rows of this module state the rest of its cases. |
| `Colors.IntBase16` | gen_pdf.py:25 | Two hex digits give the pair's value. An accepted pair holds at least one hex digit. Its value lies between -15 and 255. |
| `Colors.Components` | gen_pdf.py:25 | The result is a triple iff all three pairs are accepted. An error names a rejected pair. |
| `Colors.StripHashesSpec` | gen_pdf.py:20 | `lstrip('#')` removes exactly the leading `#`s. |
| `Colors.OtherLengthsAreBlack` | gen_pdf.py:20-24 | After stripping, any length other than 3 or 6 gives black, whatever the characters. |
| `Colors.DoubledAt` | gen_pdf.py:22 | Character i of the doubled string is character i/2 of the original. |
| `Colors.ShortFormIsDoubled` | gen_pdf.py:21-22 | A 3-character form gives the same result as its doubled 6-character form. |
| `Colors.SixHexDigits` | gen_pdf.py:25 | Six hex digits give the values of their three pairs, each in 0..255. |
| `Colors.ThreeHexDigits` | gen_pdf.py:21-25 | Three hex digits give 17 times each digit. |
| `Colors.ErrorIffBadPair` | gen_pdf.py:25 | A `ValueError` is raised iff some pair is rejected by `int(…, 16)`. The error names the first such pair. |
| `Colors.RoundTrip` | gen_pdf.py:16-25 | The hex form of a byte colour, after any number of `#`s, parses back to that colour. |
| `Colors.BadDigitExample` | gen_pdf.py:25 | `"#12g456"` raises on the pair `"g4"`. |
| `Colors.LenientPairs` | gen_pdf.py:25 | `int()` leniency lets a signed or space-padded pair through. A minus sign gives a negative component. |
| `Colors.SeparatorIsNotSpace` | gen_pdf.py:25 | A tab or a space beside a digit is skipped. U+001C is not, so a colour padded with it raises. |
| `FindFiles.EndsWithAny` | gen_pdf.py:13 | `endswith(tuple)` holds iff some extension is a suffix of the name. |
| `FindFiles.FilterNames` | gen_pdf.py:13 | The filter keeps at most the names it is given. `FilterMembers`, `FilterAppend` and `FilterSingle` state which names and in what order. |
| `FindFiles.FilterMembers` | gen_pdf.py:13 | A name is kept iff it is in the input and ends with an extension. |
| `FindFiles.FilterAppend` | gen_pdf.py:11-13 | Filtering a concatenation concatenates the filtered parts, so input order is kept. |
| `FindFiles.FilterSingle` | gen_pdf.py:13 | A single name is kept iff it ends with an extension. |
| `FindFiles.PathJoin` | gen_pdf.py:14 | The joined path ends with the file name. |
| `FindFiles.JoinedPathMatches` | gen_pdf.py:13-14 | The joined path of a kept name still ends with an extension. |
| `FindFiles.FoundSound` | gen_pdf.py:9-14 | Every yielded path is a kept file of some directory, joined to its root. |
| `FindFiles.FoundComplete` | gen_pdf.py:9-14 | Every file whose name ends with an extension is yielded, joined to its root. |
| `FindFiles.FoundAppend` | gen_pdf.py:11 | Directories' results follow each other in walk order. |
| `FindFiles.KeptPaths` | gen_pdf.py:12-14 | The inner loop yields the joined paths of the kept names of one directory, in order. |
| `FindFiles.FindFiles` | gen_pdf.py:9-14 | The nested loops yield exactly `Found(walk, exts)`. |
| `FindFiles.CaseSensitiveExample` | gen_pdf.py:13 | `"A.PY"` does not match `".py"`. An empty extension list matches nothing. |
| `FindFiles.FilterExample` | gen_pdf.py:13 | From `a.py`, `a_test.py` and `b.txt` with `[".py"]`, both `.py` files are kept, in order. |

## Left out

- FPDF layout is a foreign library. This covers page creation, the auto
  page break with margin 15, cell widths, cursor positions, font metrics,
  and the floating-point `line_height = font_size * 1.25`. The model
  records the calls, not where text lands.
- Pygments is foreign code: lexer selection by extension, the
  `guess_lexer` fallback, tokenization, and the `colorful` theme. Tokens
  are an input, the theme's style lookup is the parameter `styleOf`, and
  its default text colour is a parameter. The tokens' text is what the
  lexer gives back. The lexer may drop leading and trailing newlines and
  add a final one, so this text need not equal the file as read.
- Render.RenderTokens: `styleOf` gives an already converted colour. A
  `ValueError` from `hex_to_rgb` while a file is rendered is not modelled.
  In the code it would jump to the per-file error paragraph. `hex_to_rgb`
  and its errors are modelled on their own in `Colors`.
- File reading and the per-file `try/except` error paragraph are I/O. So
  are the two header cells of each page, `os.walk` (its output is the
  input of `FindFiles.FindFiles`), and `argparse`, `main` and `print`.
- The extension passed to the lexer, `os.path.splitext(...)[1].strip('.')`,
  only feeds a foreign lookup.
- Colors.IntBase16: models `int(pair, 16)` for ASCII digits, a sign, and
  the white space `int()` skips. That is the ASCII tab, line feed,
  vertical tab, form feed, carriage return and space, plus the non-ASCII
  characters `str.isspace()` accepts. Non-ASCII Unicode digits, which Python also
  accepts, are not modelled.
- FindFiles.PathJoin: models POSIX `os.path.join`. Windows path rules
  are not modelled.

/** What the instruction stream of the renderer promises: consecutive line
    numbers, one label and one line break per newline, the token's colour
    carried across a break inside it, newline-free runs, and the tokens' text
    recoverable from the stream. */
module RenderProperties {
  import opened Wrappers
  import opened Strings
  import opened Colors
  import opened Render

  // ----- Views of an instruction stream -----

  /** The line numbers of the labels, in order. */
  function Labels(instrs: seq<Instr>): seq<nat>
  {
    if instrs == [] then []
    else (if instrs[0].Label? then [instrs[0].line] else []) + Labels(instrs[1..])
  }

  /** The number of line breaks. */
  function Breaks(instrs: seq<Instr>): nat
  {
    if instrs == [] then 0 else (if instrs[0].Ln? then 1 else 0) + Breaks(instrs[1..])
  }

  /** The painted text: every run, with a newline at every line break. */
  function Rebuild(instrs: seq<Instr>): string
  {
    if instrs == [] then ""
    else
      (match instrs[0]
       case Write(s) => s
       case Ln => "\n"
       case _ => "") + Rebuild(instrs[1..])
  }

  /** The text colour in force just before the p-th call. */
  function ColorBefore(instrs: seq<Instr>, p: nat): Option<Rgb>
    requires p <= |instrs|
  {
    if p == 0 then None
    else if instrs[p - 1].SetColor? then Some(instrs[p - 1].color)
    else ColorBefore(instrs, p - 1)
  }

  /** The font style in force just before the p-th call. */
  function FontBefore(instrs: seq<Instr>, p: nat): Option<string>
    requires p <= |instrs|
  {
    if p == 0 then None
    else if instrs[p - 1].SetFont? then Some(instrs[p - 1].style)
    else FontBefore(instrs, p - 1)
  }

  /** lo, lo + 1, ..., lo + count - 1. */
  function Range(lo: nat, count: nat): (r: seq<nat>)
    ensures |r| == count
  {
    if count == 0 then [] else Range(lo, count - 1) + [lo + count - 1]
  }


  /** Every run is non-empty and has no newline. */
  predicate CleanWrites(instrs: seq<Instr>)
  {
    forall p :: 0 <= p < |instrs| && instrs[p].Write? ==> instrs[p].text != "" && '\n' !in instrs[p].text
  }

  /** Every label stands between a switch to gray and a switch to c. */
  predicate LabelsFramed(instrs: seq<Instr>, c: Rgb)
  {
    forall p :: 0 <= p < |instrs| && instrs[p].Label? ==>
      0 < p < |instrs| - 1 && instrs[p - 1] == SetColor(Gray) && instrs[p + 1] == SetColor(c)
  }

  /** Every run is painted in colour c. */
  predicate WritesIn(instrs: seq<Instr>, c: Rgb)
  {
    forall p :: 0 <= p < |instrs| && instrs[p].Write? ==> ColorBefore(instrs, p) == Some(c)
  }

  // ----- Concatenation -----

  lemma {:induction false} LabelsAppend(a: seq<Instr>, b: seq<Instr>)
    ensures Labels(a + b) == Labels(a) + Labels(b)
  {
    if a != [] {
      assert (a + b)[1..] == a[1..] + b;
      LabelsAppend(a[1..], b);
    } else {
      assert a + b == b;
    }
  }

  lemma {:induction false} BreaksAppend(a: seq<Instr>, b: seq<Instr>)
    ensures Breaks(a + b) == Breaks(a) + Breaks(b)
  {
    if a != [] {
      assert (a + b)[1..] == a[1..] + b;
      BreaksAppend(a[1..], b);
    } else {
      assert a + b == b;
    }
  }

  lemma {:induction false} RebuildAppend(a: seq<Instr>, b: seq<Instr>)
    ensures Rebuild(a + b) == Rebuild(a) + Rebuild(b)
  {
    if a != [] {
      assert (a + b)[1..] == a[1..] + b;
      RebuildAppend(a[1..], b);
    } else {
      assert a + b == b;
    }
  }

  lemma RangeSnoc(lo: nat, count: nat)
    ensures Range(lo, count) + [lo + count] == Range(lo, count + 1)
  {
  }

  lemma {:induction false} RangeAppend(lo: nat, a: nat, b: nat)
    ensures Range(lo, a) + Range(lo + a, b) == Range(lo, a + b)
    decreases b
  {
    if b == 0 {
      assert Range(lo, a) + [] == Range(lo, a);
    } else {
      RangeAppend(lo, a, b - 1);
      assert Range(lo, a) + Range(lo + a, b) == Range(lo, a) + Range(lo + a, b - 1) + [lo + a + b - 1];
    }
  }

  lemma {:induction false} ColorBeforePrefix(a: seq<Instr>, b: seq<Instr>, p: nat)
    requires p <= |a|
    ensures ColorBefore(a + b, p) == ColorBefore(a, p)
  {
    if p > 0 {
      ColorBeforePrefix(a, b, p - 1);
    }
  }

  lemma {:induction false} ColorBeforeShift(a: seq<Instr>, b: seq<Instr>, p: nat)
    requires p <= |b|
    ensures ColorBefore(a + b, |a| + p) ==
      if ColorBefore(b, p).Some? then ColorBefore(b, p) else ColorBefore(a, |a|)
  {
    if p == 0 {
      ColorBeforePrefix(a, b, |a|);
    } else {
      ColorBeforeShift(a, b, p - 1);
    }
  }

  lemma {:induction false} FontBeforePrefix(a: seq<Instr>, b: seq<Instr>, p: nat)
    requires p <= |a|
    ensures FontBefore(a + b, p) == FontBefore(a, p)
  {
    if p > 0 {
      FontBeforePrefix(a, b, p - 1);
    }
  }

  lemma {:induction false} FontBeforeShift(a: seq<Instr>, b: seq<Instr>, p: nat)
    requires p <= |b|
    ensures FontBefore(a + b, |a| + p) ==
      if FontBefore(b, p).Some? then FontBefore(b, p) else FontBefore(a, |a|)
  {
    if p == 0 {
      FontBeforePrefix(a, b, |a|);
    } else {
      FontBeforeShift(a, b, p - 1);
    }
  }

  lemma CleanWritesAppend(a: seq<Instr>, b: seq<Instr>)
    requires CleanWrites(a) && CleanWrites(b)
    ensures CleanWrites(a + b)
  {
    forall p | 0 <= p < |a + b| && (a + b)[p].Write?
      ensures (a + b)[p].text != "" && '\n' !in (a + b)[p].text
    {
      if p >= |a| {
        assert (a + b)[p] == b[p - |a|];
      }
    }
  }

  lemma LabelsFramedAppend(a: seq<Instr>, b: seq<Instr>, c: Rgb)
    requires LabelsFramed(a, c) && LabelsFramed(b, c)
    ensures LabelsFramed(a + b, c)
  {
    var ab := a + b;
    forall p | 0 <= p < |ab| && ab[p].Label?
      ensures 0 < p < |ab| - 1 && ab[p - 1] == SetColor(Gray) && ab[p + 1] == SetColor(c)
    {
      if p < |a| {
        assert a[p].Label?;
      } else {
        assert b[p - |a|].Label?;
      }
    }
  }

  /** The views of a stream unfold one call at a time. */
  lemma ConsViews(x: Instr, rest: seq<Instr>)
    ensures Labels([x] + rest) == (if x.Label? then [x.line] else []) + Labels(rest)
    ensures Breaks([x] + rest) == (if x.Ln? then 1 else 0) + Breaks(rest)
    ensures Rebuild([x] + rest) == (match x case Write(s) => s case Ln => "\n" case _ => "") + Rebuild(rest)
  {
    assert ([x] + rest)[1..] == rest;
  }

  lemma LineBreakViews(c: Rgb, line: nat)
    ensures var lb := LineBreak(c, line);
      Labels(lb) == [line] && Breaks(lb) == 1 && Rebuild(lb) == "\n" && CleanWrites(lb)
      && LabelsFramed(lb, c) && ColorBefore(lb, |lb|) == Some(c)
  {
    var s3: seq<Instr> := [SetColor(c)];
    var s2: seq<Instr> := [Label(line)] + s3;
    var s1: seq<Instr> := [SetColor(Gray)] + s2;
    ConsViews(SetColor(c), []);
    assert [SetColor(c)] + [] == s3;
    ConsViews(Label(line), s3);
    ConsViews(SetColor(Gray), s2);
    ConsViews(Ln, s1);
    assert LineBreak(c, line) == [Ln] + s1;
  }

  lemma HeaderViews(f: string, c: Rgb)
    ensures var h := [SetFont(f), SetColor(c)];
      Labels(h) == [] && Breaks(h) == 0 && Rebuild(h) == "" && CleanWrites(h)
      && LabelsFramed(h, c) && WritesIn(h, c) && ColorBefore(h, |h|) == Some(c)
  {
    var s1: seq<Instr> := [SetColor(c)];
    ConsViews(SetColor(c), []);
    assert [SetColor(c)] + [] == s1;
    ConsViews(SetFont(f), s1);
    assert [SetFont(f), SetColor(c)] == [SetFont(f)] + s1;
  }

  lemma PrologueViews(d: Rgb)
    ensures var pr := Prologue(d);
      Labels(pr) == [1] && Breaks(pr) == 0 && Rebuild(pr) == "" && CleanWrites(pr)
  {
    var s3: seq<Instr> := [SetColor(d)];
    var s2: seq<Instr> := [Label(1)] + s3;
    var s1: seq<Instr> := [SetColor(Gray)] + s2;
    ConsViews(SetColor(d), []);
    assert [SetColor(d)] + [] == s3;
    ConsViews(Label(1), s3);
    ConsViews(SetColor(Gray), s2);
    ConsViews(SetFont(""), s1);
    assert Prologue(d) == [SetFont("")] + s1;
  }

  lemma WriteIfViews(piece: string)
    ensures var w := WriteIf(piece);
      Labels(w) == [] && Breaks(w) == 0 && Rebuild(w) == Latin1(piece)
  {
    var w := WriteIf(piece);
    if piece != "" {
      ConsViews(Write(Latin1(piece)), []);
      assert [Write(Latin1(piece))] + [] == w;
    }
  }

  // ----- One token -----

  /** A piece's calls: a label and a break exactly when another line
      follows, and its run. */
  lemma PieceLines(pieces: seq<string>, j: nat, st: Style, n: nat)
    requires 1 <= j <= |pieces|
    ensures var q := PieceInstrs(pieces, j, st, n);
      Labels(q) == (if j < |pieces| then [n + j] else []) &&
      Breaks(q) == (if j < |pieces| then 1 else 0) &&
      Rebuild(q) == Latin1(pieces[j - 1]) + (if j < |pieces| then "\n" else "")
  {
    var w := WriteIf(pieces[j - 1]);
    WriteIfViews(pieces[j - 1]);
    if j < |pieces| {
      var lb := LineBreak(st.color, n + j);
      assert PieceInstrs(pieces, j, st, n) == w + lb;
      LineBreakViews(st.color, n + j);
      assert Labels(w + lb) == [n + j] by {
        LabelsAppend(w, lb);
      }
      assert Breaks(w + lb) == 1 by {
        BreaksAppend(w, lb);
      }
      assert Rebuild(w + lb) == Latin1(pieces[j - 1]) + "\n" by {
        RebuildAppend(w, lb);
      }
    } else {
      assert PieceInstrs(pieces, j, st, n) == w;
      assert Latin1(pieces[j - 1]) + "" == Latin1(pieces[j - 1]);
    }
  }

  /** A piece's label, if any, is framed by gray and the token's colour. */
  lemma PieceFramed(pieces: seq<string>, j: nat, st: Style, n: nat)
    requires 1 <= j <= |pieces|
    ensures LabelsFramed(PieceInstrs(pieces, j, st, n), st.color)
  {
    var w := WriteIf(pieces[j - 1]);
    if j < |pieces| {
      var lb := LineBreak(st.color, n + j);
      LineBreakViews(st.color, n + j);
      LabelsFramedAppend(w, lb, st.color);
      assert PieceInstrs(pieces, j, st, n) == w + lb;
    } else {
      assert PieceInstrs(pieces, j, st, n) == w;
    }
  }

  /** A piece sets no font. */
  lemma PieceNoFont(pieces: seq<string>, j: nat, st: Style, n: nat)
    requires 1 <= j <= |pieces|
    ensures var q := PieceInstrs(pieces, j, st, n);
      forall p :: 0 <= p < |q| ==> !q[p].SetFont?
  {
    var w := WriteIf(pieces[j - 1]);
    var q := PieceInstrs(pieces, j, st, n);
    if j < |pieces| {
      var lb := LineBreak(st.color, n + j);
      assert q == w + lb;
      forall p | 0 <= p < |q|
        ensures !q[p].SetFont?
      {
        if p >= |w| {
          assert q[p] == lb[p - |w|];
        }
      }
    } else {
      assert q == w;
    }
  }

  /** A newline-free piece gives a clean run. */
  lemma PieceClean(pieces: seq<string>, j: nat, st: Style, n: nat)
    requires 1 <= j <= |pieces| && '\n' !in pieces[j - 1]
    ensures CleanWrites(PieceInstrs(pieces, j, st, n))
  {
    var w := WriteIf(pieces[j - 1]);
    Latin1Newlines(pieces[j - 1]);
    if j < |pieces| {
      var lb := LineBreak(st.color, n + j);
      LineBreakViews(st.color, n + j);
      CleanWritesAppend(w, lb);
      assert PieceInstrs(pieces, j, st, n) == w + lb;
    } else {
      assert PieceInstrs(pieces, j, st, n) == w;
    }
  }

  /** The first j pieces, each followed by a newline. */
  function Lined(pieces: seq<string>, j: nat): string
    requires j <= |pieces|
  {
    if j == 0 then "" else Lined(pieces, j - 1) + pieces[j - 1] + "\n"
  }

  /** Joining the first j + 1 pieces is the first j pieces, each followed by
      a newline, then piece j. */
  lemma {:induction false} JoinLined(pieces: seq<string>, j: nat)
    requires j < |pieces|
    ensures Join(pieces[..j + 1]) == Lined(pieces, j) + pieces[j]
  {
    if j == 0 {
      assert pieces[..1] == [pieces[0]];
    } else {
      JoinLined(pieces, j - 1);
      assert pieces[..j + 1][..j] == pieces[..j];
    }
  }

  /** Before its last piece, a token has painted its first j pieces after
      the latin-1 round trip, each followed by a newline. */
  lemma {:induction false} TokenUpToRebuild(pieces: seq<string>, j: nat, st: Style, n: nat)
    requires j < |pieces|
    ensures Rebuild(TokenUpTo(pieces, j, st, n)) == Latin1(Lined(pieces, j))
  {
    if j == 0 {
      HeaderViews(FontStyle(st.bold, st.italic), st.color);
    } else {
      var prev := TokenUpTo(pieces, j - 1, st, n);
      var q := PieceInstrs(pieces, j, st, n);
      assert Rebuild(prev) == Latin1(Lined(pieces, j - 1)) by {
        TokenUpToRebuild(pieces, j - 1, st, n);
      }
      assert Rebuild(q) == Latin1(pieces[j - 1]) + "\n" by {
        PieceLines(pieces, j, st, n);
      }
      assert Rebuild(prev + q) == Rebuild(prev) + Rebuild(q) by {
        RebuildAppend(prev, q);
      }
      LinedLatin1Step(pieces, j);
      assert TokenUpTo(pieces, j, st, n) == prev + q;
    }
  }

  lemma LinedLatin1Step(pieces: seq<string>, j: nat)
    requires 1 <= j <= |pieces|
    ensures Latin1(Lined(pieces, j)) == Latin1(Lined(pieces, j - 1)) + Latin1(pieces[j - 1]) + "\n"
  {
    Latin1Append(Lined(pieces, j - 1) + pieces[j - 1], "\n");
    Latin1Append(Lined(pieces, j - 1), pieces[j - 1]);
    assert Latin1("\n") == "\n";
  }

  /** All the pieces of a token, painted: their join after the latin-1
      round trip. */
  lemma PiecesRebuild(pieces: seq<string>, st: Style, n: nat)
    requires |pieces| >= 1
    ensures Rebuild(TokenUpTo(pieces, |pieces|, st, n)) == Latin1(Join(pieces))
  {
    var k := |pieces|;
    var prev := TokenUpTo(pieces, k - 1, st, n);
    var q := PieceInstrs(pieces, k, st, n);
    assert Rebuild(prev) == Latin1(Lined(pieces, k - 1)) by {
      TokenUpToRebuild(pieces, k - 1, st, n);
    }
    assert Rebuild(q) == Latin1(pieces[k - 1]) by {
      PieceLines(pieces, k, st, n);
      assert Latin1(pieces[k - 1]) + "" == Latin1(pieces[k - 1]);
    }
    assert Rebuild(prev + q) == Rebuild(prev) + Rebuild(q) by {
      RebuildAppend(prev, q);
    }
    assert Join(pieces) == Lined(pieces, k - 1) + pieces[k - 1] by {
      JoinLined(pieces, k - 1);
      assert pieces[..k] == pieces;
    }
    Latin1Append(Lined(pieces, k - 1), pieces[k - 1]);
    assert TokenUpTo(pieces, k, st, n) == prev + q;
  }

  /** A token's runs and breaks give back its text. */
  lemma TokenRebuild(text: string, st: Style, n: nat)
    ensures Rebuild(TokenInstrs(text, st, n)) == Latin1(text)
  {
    PiecesRebuild(Split(text), st, n);
    JoinSplit(text);
  }

  /** Before its last piece, a token of j pieces so far has j labels
      numbered on from n, and j breaks. */
  lemma {:induction false} TokenUpToLines(pieces: seq<string>, j: nat, st: Style, n: nat)
    requires j < |pieces|
    ensures Labels(TokenUpTo(pieces, j, st, n)) == Range(n + 1, j)
    ensures Breaks(TokenUpTo(pieces, j, st, n)) == j
  {
    if j == 0 {
      HeaderViews(FontStyle(st.bold, st.italic), st.color);
    } else {
      var prev := TokenUpTo(pieces, j - 1, st, n);
      var q := PieceInstrs(pieces, j, st, n);
      assert Labels(prev) == Range(n + 1, j - 1) && Breaks(prev) == j - 1 by {
        TokenUpToLines(pieces, j - 1, st, n);
      }
      assert Labels(q) == [n + j] && Breaks(q) == 1 by {
        PieceLines(pieces, j, st, n);
      }
      assert Labels(prev + q) == Labels(prev) + Labels(q) by {
        LabelsAppend(prev, q);
      }
      assert Breaks(prev + q) == Breaks(prev) + Breaks(q) by {
        BreaksAppend(prev, q);
      }
      RangeSnoc(n + 1, j - 1);
      assert TokenUpTo(pieces, j, st, n) == prev + q;
    }
  }

  /** Calls with no label and no break add nothing to the line count. */
  lemma LinesUnchanged(t: seq<Instr>, prev: seq<Instr>, q: seq<Instr>)
    requires t == prev + q
    requires Labels(q) == [] && Breaks(q) == 0
    ensures Labels(t) == Labels(prev) && Breaks(t) == Breaks(prev)
  {
    LabelsAppend(prev, q);
    BreaksAppend(prev, q);
    assert Labels(prev) + [] == Labels(prev);
  }

  /** A token of k + 1 pieces has k labels numbered n + 1 to n + k, and k
      breaks. */
  lemma PiecesLines(pieces: seq<string>, st: Style, n: nat)
    requires |pieces| >= 1
    ensures Labels(TokenUpTo(pieces, |pieces|, st, n)) == Range(n + 1, |pieces| - 1)
    ensures Breaks(TokenUpTo(pieces, |pieces|, st, n)) == |pieces| - 1
  {
    var k := |pieces|;
    var prev := TokenUpTo(pieces, k - 1, st, n);
    var q := PieceInstrs(pieces, k, st, n);
    TokenUpToLines(pieces, k - 1, st, n);
    assert q == WriteIf(pieces[k - 1]);
    WriteIfViews(pieces[k - 1]);
    LinesUnchanged(TokenUpTo(pieces, k, st, n), prev, q);
  }

  /** A token with k newlines makes exactly k labels, numbered n + 1 to
      n + k, and exactly k line breaks. */
  lemma TokenLines(text: string, st: Style, n: nat)
    ensures Labels(TokenInstrs(text, st, n)) == Range(n + 1, Count(text, '\n'))
    ensures Breaks(TokenInstrs(text, st, n)) == Count(text, '\n')
  {
    PiecesLines(Split(text), st, n);
  }

  lemma {:induction false} TokenUpToClean(pieces: seq<string>, j: nat, st: Style, n: nat)
    requires j <= |pieces|
    requires forall k :: 0 <= k < |pieces| ==> '\n' !in pieces[k]
    ensures CleanWrites(TokenUpTo(pieces, j, st, n))
  {
    if j == 0 {
      HeaderViews(FontStyle(st.bold, st.italic), st.color);
    } else {
      var prev := TokenUpTo(pieces, j - 1, st, n);
      var q := PieceInstrs(pieces, j, st, n);
      assert CleanWrites(prev) by {
        TokenUpToClean(pieces, j - 1, st, n);
      }
      assert CleanWrites(q) by {
        assert '\n' !in pieces[j - 1];
        PieceClean(pieces, j, st, n);
      }
      CleanWritesAppend(prev, q);
      assert TokenUpTo(pieces, j, st, n) == prev + q;
    }
  }

  /** Every run of a token is non-empty and newline-free. */
  lemma TokenClean(text: string, st: Style, n: nat)
    ensures CleanWrites(TokenInstrs(text, st, n))
  {
    SplitNewlineFreePieces(text);
    TokenUpToClean(Split(text), |Split(text)|, st, n);
  }

  lemma {:induction false} TokenUpToFramed(pieces: seq<string>, j: nat, st: Style, n: nat)
    requires j <= |pieces|
    ensures LabelsFramed(TokenUpTo(pieces, j, st, n), st.color)
  {
    if j == 0 {
      HeaderViews(FontStyle(st.bold, st.italic), st.color);
    } else {
      TokenUpToFramed(pieces, j - 1, st, n);
      PieceFramed(pieces, j, st, n);
      LabelsFramedAppend(TokenUpTo(pieces, j - 1, st, n), PieceInstrs(pieces, j, st, n), st.color);
    }
  }

  /** Inside a token every new line's label is painted in gray and followed
      at once by the token's own colour, not the default one. */
  lemma TokenFramed(text: string, st: Style, n: nat)
    ensures LabelsFramed(TokenInstrs(text, st, n), st.color)
  {
    TokenUpToFramed(Split(text), |Split(text)|, st, n);
  }

  /** A run appended after colour c is painted in c. */
  lemma WritesInAfterRun(a: seq<Instr>, s: string, c: Rgb)
    requires WritesIn(a, c) && ColorBefore(a, |a|) == Some(c)
    ensures WritesIn(a + [Write(s)], c) && ColorBefore(a + [Write(s)], |a| + 1) == Some(c)
  {
    var b := a + [Write(s)];
    forall p | 0 <= p < |b| && b[p].Write?
      ensures ColorBefore(b, p) == Some(c)
    {
      ColorBeforePrefix(a, [Write(s)], p);
    }
    ColorBeforePrefix(a, [Write(s)], |a|);
  }

  /** A line break ends in colour c and paints nothing. */
  lemma WritesInAfterBreak(a: seq<Instr>, c: Rgb, line: nat)
    requires WritesIn(a, c)
    ensures var b := a + LineBreak(c, line);
      WritesIn(b, c) && ColorBefore(b, |b|) == Some(c)
  {
    var b := a + LineBreak(c, line);
    forall p | 0 <= p < |b| && b[p].Write?
      ensures ColorBefore(b, p) == Some(c)
    {
      assert p < |a|;
      ColorBeforePrefix(a, LineBreak(c, line), p);
    }
  }

  /** One piece of a token keeps its runs in the token's colour. */
  lemma ColorsStep(prev: seq<Instr>, pieces: seq<string>, j: nat, st: Style, n: nat)
    requires 1 <= j <= |pieces|
    requires WritesIn(prev, st.color) && ColorBefore(prev, |prev|) == Some(st.color)
    ensures var t := prev + PieceInstrs(pieces, j, st, n);
      WritesIn(t, st.color) && ColorBefore(t, |t|) == Some(st.color)
  {
    var piece := pieces[j - 1];
    var w: seq<Instr> := WriteIf(piece);
    if piece != "" {
      WritesInAfterRun(prev, Latin1(piece), st.color);
    } else {
      assert prev + w == prev;
    }
    if j < |pieces| {
      WritesInAfterBreak(prev + w, st.color, n + j);
      assert prev + PieceInstrs(pieces, j, st, n) == prev + w + LineBreak(st.color, n + j);
    } else {
      assert prev + PieceInstrs(pieces, j, st, n) == prev + w;
    }
  }

  lemma {:induction false} TokenUpToColors(pieces: seq<string>, j: nat, st: Style, n: nat)
    requires j <= |pieces|
    ensures var t: seq<Instr> := TokenUpTo(pieces, j, st, n);
      WritesIn(t, st.color) && ColorBefore(t, |t|) == Some(st.color)
  {
    if j == 0 {
      HeaderViews(FontStyle(st.bold, st.italic), st.color);
    } else {
      TokenUpToColors(pieces, j - 1, st, n);
      ColorsStep(TokenUpTo(pieces, j - 1, st, n), pieces, j, st, n);
    }
  }

  /** Every run of a token is painted in that token's colour, on its first
      line and on every continuation line. */
  lemma TokenColors(text: string, st: Style, n: nat)
    ensures WritesIn(TokenInstrs(text, st, n), st.color)
  {
    TokenUpToColors(Split(text), |Split(text)|, st, n);
  }

  /** Calls without a font change, appended after the first call, keep the
      first call the only font change. */
  lemma OneFontAppend(a: seq<Instr>, b: seq<Instr>)
    requires |a| >= 1 && forall p :: 1 <= p < |a| ==> !a[p].SetFont?
    requires forall p :: 0 <= p < |b| ==> !b[p].SetFont?
    ensures forall p :: 1 <= p < |a + b| ==> !(a + b)[p].SetFont?
  {
    forall p | 1 <= p < |a + b|
      ensures !(a + b)[p].SetFont?
    {
      if p >= |a| {
        assert (a + b)[p] == b[p - |a|];
      }
    }
  }

  lemma {:induction false} TokenUpToOneFont(pieces: seq<string>, j: nat, st: Style, n: nat)
    requires j <= |pieces|
    ensures var t: seq<Instr> := TokenUpTo(pieces, j, st, n);
      |t| >= 2 && t[0] == SetFont(FontStyle(st.bold, st.italic)) && forall p :: 1 <= p < |t| ==> !t[p].SetFont?
  {
    if j > 0 {
      var prev := TokenUpTo(pieces, j - 1, st, n);
      TokenUpToOneFont(pieces, j - 1, st, n);
      PieceNoFont(pieces, j, st, n);
      OneFontAppend(prev, PieceInstrs(pieces, j, st, n));
    }
  }

  /** A token sets its font once, first; so its runs and the labels of its
      continuation lines are all in the token's font style. */
  lemma TokenFont(text: string, st: Style, n: nat)
    ensures var t: seq<Instr> := TokenInstrs(text, st, n);
      |t| >= 2 && t[0] == SetFont(FontStyle(st.bold, st.italic)) &&
      forall p :: 1 <= p <= |t| ==> FontBefore(t, p) == Some(FontStyle(st.bold, st.italic))
  {
    var t: seq<Instr> := TokenInstrs(text, st, n);
    TokenUpToOneFont(Split(text), |Split(text)|, st, n);
    FontBeforeFirst(t, FontStyle(st.bold, st.italic), |t|);
  }

  lemma {:induction false} FontBeforeFirst(t: seq<Instr>, f: string, q: nat)
    requires 1 <= q <= |t| && t[0] == SetFont(f) && forall p :: 1 <= p < |t| ==> !t[p].SetFont?
    ensures forall p :: 1 <= p <= q ==> FontBefore(t, p) == Some(f)
  {
    if q > 1 {
      FontBeforeFirst(t, f, q - 1);
    }
  }

  /** A token without newlines: its font, its colour and one run of its
      text (none when the text is empty); no label, no break. */
  lemma SingleLineToken(text: string, st: Style, n: nat)
    requires '\n' !in text
    ensures TokenInstrs(text, st, n) ==
      [SetFont(FontStyle(st.bold, st.italic)), SetColor(st.color)] + (if text == "" then [] else [Write(Latin1(text))])
  {
    SplitNewlineFree(text);
    assert TokenInstrs(text, st, n) == TokenUpTo([text], 1, st, n);
    assert TokenUpTo([text], 1, st, n) == TokenUpTo([text], 0, st, n) + WriteIf(text);
  }

  /** A token spanning two lines, such as a block comment: the first
      line's run, the break with the gray label of the next line, the
      token's colour again, then the second line's run. */
  lemma TwoLineToken(a: string, b: string, st: Style, n: nat)
    requires '\n' !in a && '\n' !in b && a != "" && b != ""
    ensures TokenInstrs(a + "\n" + b, st, n) ==
      [SetFont(FontStyle(st.bold, st.italic)), SetColor(st.color), Write(Latin1(a)),
       Ln, SetColor(Gray), Label(n + 1), SetColor(st.color), Write(Latin1(b))]
  {
    SplitAtNewline(a, b);
    SplitNewlineFree(a);
    SplitNewlineFree(b);
    assert Split(a + "\n" + b) == [a, b];
    TwoPieceToken(a, b, st, n);
  }

  lemma TwoPieceToken(a: string, b: string, st: Style, n: nat)
    requires a != "" && b != ""
    ensures TokenUpTo([a, b], 2, st, n) ==
      [SetFont(FontStyle(st.bold, st.italic)), SetColor(st.color), Write(Latin1(a)),
       Ln, SetColor(Gray), Label(n + 1), SetColor(st.color), Write(Latin1(b))]
  {
    var pieces := [a, b];
    var h := [SetFont(FontStyle(st.bold, st.italic)), SetColor(st.color)];
    assert PieceInstrs(pieces, 1, st, n) == [Write(Latin1(a))] + LineBreak(st.color, n + 1);
    assert PieceInstrs(pieces, 2, st, n) == [Write(Latin1(b))] + [];
    assert TokenUpTo(pieces, 1, st, n) == h + PieceInstrs(pieces, 1, st, n);
    assert TokenUpTo(pieces, 2, st, n) == TokenUpTo(pieces, 1, st, n) + PieceInstrs(pieces, 2, st, n);
  }

  // ----- One file -----

  /** A token renderer: the calls for a token of a style starting on a line. */
  type TokenRenderer = (string, Style, nat) -> seq<Instr>

  /** The calls for a file up to its last token, with the calls of each
      token supplied by tok. Emitted is the case tok = TokenInstrs; the
      facts below are proved for any tok that has the token-level property
      needed, so that those proofs do not depend on how a token is split. */
  function EmittedBy<K>(ts: seq<Token<K>>, styleOf: K -> Style, d: Rgb, tok: TokenRenderer): seq<Instr>
    decreases |ts|
  {
    if ts == [] then Prologue(d)
    else
      var init := ts[..|ts| - 1];
      var last := ts[|ts| - 1];
      EmittedBy(init, styleOf, d, tok) + tok(last.text, styleOf(last.kind), 1 + Count(AllText(init), '\n'))
  }

  lemma {:induction false} EmittedIsBy<K>(ts: seq<Token<K>>, styleOf: K -> Style, d: Rgb)
    ensures Emitted(ts, styleOf, d) == EmittedBy(ts, styleOf, d, TokenInstrs)
    decreases |ts|
  {
    if ts != [] {
      EmittedIsBy(ts[..|ts| - 1], styleOf, d);
    }
  }

  lemma EmittedBySnoc<K>(ts: seq<Token<K>>, styleOf: K -> Style, d: Rgb, tok: TokenRenderer, i: nat)
    requires i < |ts|
    ensures EmittedBy(ts[..i + 1], styleOf, d, tok) ==
      EmittedBy(ts[..i], styleOf, d, tok) + tok(ts[i].text, styleOf(ts[i].kind), 1 + Count(AllText(ts[..i]), '\n'))
  {
    assert ts[..i + 1][..i] == ts[..i];
  }

  lemma {:induction false} EmittedByPrefix<K>(ts: seq<Token<K>>, styleOf: K -> Style, d: Rgb, tok: TokenRenderer, k: nat)
    requires k <= |ts|
    ensures EmittedBy(ts[..k], styleOf, d, tok) <= EmittedBy(ts, styleOf, d, tok)
    decreases |ts|
  {
    if k == |ts| {
      assert ts[..k] == ts;
    } else {
      var init := ts[..|ts| - 1];
      EmittedByPrefix(init, styleOf, d, tok, k);
      assert init[..k] == ts[..k];
    }
  }

  /** The calls for a prefix of the tokens are a prefix of the calls for
      all of them. */
  lemma EmittedPrefix<K>(ts: seq<Token<K>>, styleOf: K -> Style, d: Rgb, k: nat)
    requires k <= |ts|
    ensures Emitted(ts[..k], styleOf, d) <= Emitted(ts, styleOf, d)
  {
    EmittedIsBy(ts, styleOf, d);
    EmittedIsBy(ts[..k], styleOf, d);
    EmittedByPrefix(ts, styleOf, d, TokenInstrs, k);
  }

  /** The file starts with Courier regular, the gray label of line 1 and
      the default colour, and ends by going back to the default colour. */
  lemma FileFrame<K>(ts: seq<Token<K>>, styleOf: K -> Style, d: Rgb)
    ensures var r := RenderFile(ts, styleOf, d);
      |r| >= 5 && r[..4] == [SetFont(""), SetColor(Gray), Label(1), SetColor(d)] && r[|r| - 1] == SetColor(d)
  {
    EmittedPrefix(ts, styleOf, d, 0);
    assert ts[..0] == [];
  }

  /** Every token's labels are numbered on from the line after the one it
      starts on, one per newline. */
  lemma TokensLabels()
    ensures forall text, st, n: nat :: Labels(TokenInstrs(text, st, n)) == Range(n + 1, Count(text, '\n'))
  {
    forall text, st, n: nat
      ensures Labels(TokenInstrs(text, st, n)) == Range(n + 1, Count(text, '\n'))
    {
      TokenLines(text, st, n);
    }
  }

  lemma TokensBreak()
    ensures forall text, st, n: nat :: Breaks(TokenInstrs(text, st, n)) == Count(text, '\n')
  {
    forall text, st, n: nat
      ensures Breaks(TokenInstrs(text, st, n)) == Count(text, '\n')
    {
      TokenLines(text, st, n);
    }
  }

  lemma {:induction false} EmittedByBreaks<K>(ts: seq<Token<K>>, styleOf: K -> Style, d: Rgb, tok: TokenRenderer)
    requires forall text, st, n: nat :: Breaks(tok(text, st, n)) == Count(text, '\n')
    ensures Breaks(EmittedBy(ts, styleOf, d, tok)) == Count(AllText(ts), '\n')
    decreases |ts|
  {
    if ts == [] {
      PrologueViews(d);
    } else {
      var init := ts[..|ts| - 1];
      var last := ts[|ts| - 1];
      var a := EmittedBy(init, styleOf, d, tok);
      var t := tok(last.text, styleOf(last.kind), 1 + Count(AllText(init), '\n'));
      assert Breaks(a) == Count(AllText(init), '\n') by {
        EmittedByBreaks(init, styleOf, d, tok);
      }
      assert Count(AllText(ts), '\n') == Count(AllText(init), '\n') + Count(last.text, '\n') by {
        assert AllText(ts) == AllText(init) + last.text;
        CountAppend(AllText(init), last.text, '\n');
      }
      calc {
        Breaks(EmittedBy(ts, styleOf, d, tok));
        Breaks(a + t);
        { BreaksAppend(a, t); }
        Breaks(a) + Breaks(t);
      }
    }
  }

  /** Labels 1 to m, then m + 1 to m + k, are labels 1 to m + k. */
  lemma LabelsThrough(a: seq<Instr>, t: seq<Instr>, m: nat, k: nat)
    requires Labels(a) == Range(1, m) && Labels(t) == Range(m + 1, k)
    ensures Labels(a + t) == Range(1, m + k)
  {
    LabelsAppend(a, t);
    RangeAppend(1, m, k);
  }

  lemma {:induction false} EmittedByLabels<K>(ts: seq<Token<K>>, styleOf: K -> Style, d: Rgb, tok: TokenRenderer)
    requires forall text, st, n: nat :: Labels(tok(text, st, n)) == Range(n + 1, Count(text, '\n'))
    ensures Labels(EmittedBy(ts, styleOf, d, tok)) == Range(1, 1 + Count(AllText(ts), '\n'))
    decreases |ts|
  {
    if ts == [] {
      PrologueViews(d);
      assert Range(1, 1) == [1];
    } else {
      var init := ts[..|ts| - 1];
      var last := ts[|ts| - 1];
      var m := Count(AllText(init), '\n');
      var k := Count(last.text, '\n');
      var a := EmittedBy(init, styleOf, d, tok);
      var t := tok(last.text, styleOf(last.kind), 1 + m);
      assert Labels(a) == Range(1, 1 + m) by {
        EmittedByLabels(init, styleOf, d, tok);
      }
      assert Labels(t) == Range(1 + m + 1, k);
      assert Labels(a + t) == Range(1, 1 + m + k) by {
        LabelsThrough(a, t, 1 + m, k);
      }
      assert Count(AllText(ts), '\n') == m + k by {
        assert AllText(ts) == AllText(init) + last.text;
        CountAppend(AllText(init), last.text, '\n');
      }
      assert EmittedBy(ts, styleOf, d, tok) == a + t;
    }
  }

  lemma EmittedLines<K>(ts: seq<Token<K>>, styleOf: K -> Style, d: Rgb)
    ensures Labels(Emitted(ts, styleOf, d)) == Range(1, 1 + Count(AllText(ts), '\n'))
    ensures Breaks(Emitted(ts, styleOf, d)) == Count(AllText(ts), '\n')
  {
    TokensLabels();
    EmittedByLabels(ts, styleOf, d, TokenInstrs);
    TokensBreak();
    EmittedByBreaks(ts, styleOf, d, TokenInstrs);
    EmittedIsBy(ts, styleOf, d);
  }

  /** The closing switch of colour adds no label, break, text or run. */
  lemma ColorTail(e: seq<Instr>, c: Rgb)
    ensures Labels(e + [SetColor(c)]) == Labels(e) && Breaks(e + [SetColor(c)]) == Breaks(e)
    ensures Rebuild(e + [SetColor(c)]) == Rebuild(e)
    ensures CleanWrites(e) ==> CleanWrites(e + [SetColor(c)])
  {
    ConsViews(SetColor(c), []);
    assert [SetColor(c)] + [] == [SetColor(c)];
    LabelsAppend(e, [SetColor(c)]);
    BreaksAppend(e, [SetColor(c)]);
    RebuildAppend(e, [SetColor(c)]);
    if CleanWrites(e) {
      CleanWritesAppend(e, [SetColor(c)]);
    }
  }

  /** The labels of a file are numbered 1, 2, ..., 1 + N where N is the
      number of newlines in its text; there are N line breaks. */
  lemma FileLines<K>(ts: seq<Token<K>>, styleOf: K -> Style, d: Rgb)
    ensures Labels(RenderFile(ts, styleOf, d)) == Range(1, 1 + Count(AllText(ts), '\n'))
    ensures Breaks(RenderFile(ts, styleOf, d)) == Count(AllText(ts), '\n')
  {
    EmittedLines(ts, styleOf, d);
    ColorTail(Emitted(ts, styleOf, d), d);
  }

  lemma {:induction false} EmittedByRebuild<K>(ts: seq<Token<K>>, styleOf: K -> Style, d: Rgb, tok: TokenRenderer)
    requires forall text, st, n: nat :: Rebuild(tok(text, st, n)) == Latin1(text)
    ensures Rebuild(EmittedBy(ts, styleOf, d, tok)) == Latin1(AllText(ts))
    decreases |ts|
  {
    if ts == [] {
      PrologueViews(d);
    } else {
      var init := ts[..|ts| - 1];
      var last := ts[|ts| - 1];
      var a := EmittedBy(init, styleOf, d, tok);
      var t := tok(last.text, styleOf(last.kind), 1 + Count(AllText(init), '\n'));
      assert Rebuild(a) == Latin1(AllText(init)) by {
        EmittedByRebuild(init, styleOf, d, tok);
      }
      assert Latin1(AllText(ts)) == Latin1(AllText(init)) + Latin1(last.text) by {
        assert AllText(ts) == AllText(init) + last.text;
        Latin1Append(AllText(init), last.text);
      }
      calc {
        Rebuild(EmittedBy(ts, styleOf, d, tok));
        Rebuild(a + t);
        { RebuildAppend(a, t); }
        Rebuild(a) + Rebuild(t);
      }
    }
  }

  /** The runs of a file, with a newline at each line break, are the text
      of its tokens, in order, after the latin-1 round trip. That is the
      lexer's text, which need not be the file's contents byte for byte. */
  lemma FileRebuild<K>(ts: seq<Token<K>>, styleOf: K -> Style, d: Rgb)
    ensures Rebuild(RenderFile(ts, styleOf, d)) == Latin1(AllText(ts))
  {
    forall text, st, n: nat ensures Rebuild(TokenInstrs(text, st, n)) == Latin1(text) {
      TokenRebuild(text, st, n);
    }
    EmittedByRebuild(ts, styleOf, d, TokenInstrs);
    EmittedIsBy(ts, styleOf, d);
    ColorTail(Emitted(ts, styleOf, d), d);
  }

  lemma {:induction false} EmittedByClean<K>(ts: seq<Token<K>>, styleOf: K -> Style, d: Rgb, tok: TokenRenderer)
    requires forall text, st, n: nat :: CleanWrites(tok(text, st, n))
    ensures CleanWrites(EmittedBy(ts, styleOf, d, tok))
    decreases |ts|
  {
    if ts == [] {
      PrologueViews(d);
    } else {
      var init := ts[..|ts| - 1];
      var last := ts[|ts| - 1];
      var a := EmittedBy(init, styleOf, d, tok);
      var t := tok(last.text, styleOf(last.kind), 1 + Count(AllText(init), '\n'));
      EmittedByClean(init, styleOf, d, tok);
      CleanWritesAppend(a, t);
      assert EmittedBy(ts, styleOf, d, tok) == a + t;
    }
  }

  /** Every run of a file is non-empty and has no newline. */
  lemma FileClean<K>(ts: seq<Token<K>>, styleOf: K -> Style, d: Rgb)
    ensures CleanWrites(RenderFile(ts, styleOf, d))
  {
    forall text, st, n: nat ensures CleanWrites(TokenInstrs(text, st, n)) {
      TokenClean(text, st, n);
    }
    EmittedByClean(ts, styleOf, d, TokenInstrs);
    EmittedIsBy(ts, styleOf, d);
    ColorTail(Emitted(ts, styleOf, d), d);
  }

  /** The calls t sit in r right after the calls e. */
  predicate BlockAt(r: seq<Instr>, e: seq<Instr>, t: seq<Instr>)
  {
    |e| + |t| <= |r| && r[..|e| + |t|] == e + t
  }

  /** Call q of r is styled as a call of a token of style st: a run is in
      the token's colour and font style, a label is painted in gray and
      followed at once by the token's colour. */
  predicate StyledAt(r: seq<Instr>, q: nat, st: Style)
  {
    q < |r| &&
    (r[q].Write? ==> ColorBefore(r, q) == Some(st.color) && FontBefore(r, q) == Some(FontStyle(st.bold, st.italic))) &&
    (r[q].Label? ==> 0 < q && q + 1 < |r| && r[q - 1] == SetColor(Gray) && r[q + 1] == SetColor(st.color))
  }

  /** Within a file, the calls of token i sit right after those of the
      tokens before it. */
  lemma TokenBlock<K>(ts: seq<Token<K>>, styleOf: K -> Style, d: Rgb, i: nat)
    requires i < |ts|
    ensures BlockAt(RenderFile(ts, styleOf, d), Emitted(ts[..i], styleOf, d),
      TokenInstrs(ts[i].text, styleOf(ts[i].kind), 1 + Count(AllText(ts[..i]), '\n')))
  {
    EmittedIsBy(ts[..i + 1], styleOf, d);
    EmittedIsBy(ts[..i], styleOf, d);
    EmittedBySnoc(ts, styleOf, d, TokenInstrs, i);
    EmittedPrefix(ts, styleOf, d, i + 1);
  }

  /** The calls of one token, wherever they sit in a longer stream, keep
      their colours, their font and the framing of their labels. */
  lemma BlockStyle(r: seq<Instr>, e: seq<Instr>, text: string, st: Style, n: nat, p: nat)
    requires BlockAt(r, e, TokenInstrs(text, st, n)) && p < |TokenInstrs(text, st, n)|
    ensures StyledAt(r, |e| + p, st)
  {
    var t := TokenInstrs(text, st, n);
    var o := |e|;
    var rest := r[o + |t|..];
    assert r == e + t + rest by {
      assert r == r[..o + |t|] + rest;
    }
    assert r[o + p] == t[p];
    if t[p].Write? {
      TokenColors(text, st, n);
      TokenFont(text, st, n);
      ColorBeforePrefix(e + t, rest, o + p);
      ColorBeforeShift(e, t, p);
      FontBeforePrefix(e + t, rest, o + p);
      FontBeforeShift(e, t, p);
    }
    if t[p].Label? {
      TokenFramed(text, st, n);
      assert r[o + p - 1] == t[p - 1];
      assert r[o + p + 1] == t[p + 1];
    }
  }

  /** Across a whole file: every run of token i is painted in token i's
      colour and font style, and every label inside token i is painted in
      gray and followed at once by token i's colour. */
  lemma FileTokenStyle<K>(ts: seq<Token<K>>, styleOf: K -> Style, d: Rgb, i: nat, p: nat)
    requires i < |ts|
    requires p < |TokenInstrs(ts[i].text, styleOf(ts[i].kind), 1 + Count(AllText(ts[..i]), '\n'))|
    ensures StyledAt(RenderFile(ts, styleOf, d), |Emitted(ts[..i], styleOf, d)| + p, styleOf(ts[i].kind))
  {
    TokenBlock(ts, styleOf, d, i);
    BlockStyle(RenderFile(ts, styleOf, d), Emitted(ts[..i], styleOf, d), ts[i].text, styleOf(ts[i].kind),
      1 + Count(AllText(ts[..i]), '\n'), p);
  }

  // ----- Where labels sit -----

  /** Every label is on the line base plus the breaks before it, and comes
      right after a line break and the switch to gray. */
  predicate LabelsAfterBreaks(instrs: seq<Instr>, base: nat)
  {
    forall p :: 0 <= p < |instrs| && instrs[p].Label? ==>
      instrs[p].line == base + Breaks(instrs[..p]) && 2 <= p && instrs[p - 2..p] == [Ln, SetColor(Gray)]
  }

  /** If call p is a label, it is on the line base plus the breaks before
      it, and past line base it comes right after a line break and the
      switch to gray. */
  predicate PlacedAt(instrs: seq<Instr>, base: nat, p: nat)
    requires p < |instrs|
  {
    instrs[p].Label? ==>
      instrs[p].line == base + Breaks(instrs[..p]) && (instrs[p].line > base ==> 2 <= p && instrs[p - 2..p] == [Ln, SetColor(Gray)])
  }

  /** Every label is placed as PlacedAt says. */
  predicate LabelsPlaced(instrs: seq<Instr>, base: nat)
  {
    forall p: nat :: p < |instrs| ==> PlacedAt(instrs, base, p)
  }

  /** A label of b, appended after a, keeps its place. */
  lemma PlacedInSuffix(a: seq<Instr>, b: seq<Instr>, base: nat, p: nat)
    requires LabelsAfterBreaks(b, base + Breaks(a))
    requires |a| <= p < |a + b| && (a + b)[p].Label?
    ensures (a + b)[p].line == base + Breaks((a + b)[..p]) && 2 <= p && (a + b)[p - 2..p] == [Ln, SetColor(Gray)]
  {
    var q := p - |a|;
    assert (a + b)[p] == b[q];
    assert (a + b)[..p] == a + b[..q];
    BreaksAppend(a, b[..q]);
    assert (a + b)[p - 2..p] == b[q - 2..q];
  }

  lemma AfterBreaksAppend(a: seq<Instr>, b: seq<Instr>, base: nat)
    requires LabelsAfterBreaks(a, base) && LabelsAfterBreaks(b, base + Breaks(a))
    ensures LabelsAfterBreaks(a + b, base)
  {
    forall p | 0 <= p < |a + b| && (a + b)[p].Label?
      ensures (a + b)[p].line == base + Breaks((a + b)[..p]) && 2 <= p && (a + b)[p - 2..p] == [Ln, SetColor(Gray)]
    {
      if p < |a| {
        assert (a + b)[..p] == a[..p];
        assert a[p].Label?;
      } else {
        PlacedInSuffix(a, b, base, p);
      }
    }
  }

  lemma PlacedAppend(a: seq<Instr>, b: seq<Instr>, base: nat)
    requires LabelsPlaced(a, base) && LabelsAfterBreaks(b, base + Breaks(a))
    ensures LabelsPlaced(a + b, base)
  {
    forall p | 0 <= p < |a + b| && (a + b)[p].Label?
      ensures (a + b)[p].line == base + Breaks((a + b)[..p]) &&
        ((a + b)[p].line > base ==> 2 <= p && (a + b)[p - 2..p] == [Ln, SetColor(Gray)])
    {
      if p < |a| {
        assert (a + b)[..p] == a[..p];
        assert a[p].Label? && PlacedAt(a, base, p);
      } else {
        PlacedInSuffix(a, b, base, p);
      }
    }
  }

  /** The label of a piece's line break is on the line after the piece. */
  lemma PiecePlaced(pieces: seq<string>, j: nat, st: Style, n: nat)
    requires 1 <= j <= |pieces|
    ensures LabelsAfterBreaks(PieceInstrs(pieces, j, st, n), n + j - 1)
  {
    var w := WriteIf(pieces[j - 1]);
    var q := PieceInstrs(pieces, j, st, n);
    if j < |pieces| {
      var lb := LineBreak(st.color, n + j);
      assert q == w + lb;
      forall p | 0 <= p < |q| && q[p].Label?
        ensures q[p].line == n + j - 1 + Breaks(q[..p]) && 2 <= p && q[p - 2..p] == [Ln, SetColor(Gray)]
      {
        assert p == |w| + 2;
        assert q[..p] == w + [Ln, SetColor(Gray)];
        WriteIfViews(pieces[j - 1]);
        BreaksAppend(w, [Ln, SetColor(Gray)]);
        ConsViews(SetColor(Gray), []);
        assert [SetColor(Gray)] + [] == [SetColor(Gray)];
        ConsViews(Ln, [SetColor(Gray)]);
        assert [Ln] + [SetColor(Gray)] == [Ln, SetColor(Gray)];
      }
    } else {
      assert q == w;
    }
  }

  lemma {:induction false} TokenUpToPlaced(pieces: seq<string>, j: nat, st: Style, n: nat)
    requires j <= |pieces|
    ensures LabelsAfterBreaks(TokenUpTo(pieces, j, st, n), n)
  {
    if j > 0 {
      var prev := TokenUpTo(pieces, j - 1, st, n);
      var q := PieceInstrs(pieces, j, st, n);
      assert LabelsAfterBreaks(prev, n) by {
        TokenUpToPlaced(pieces, j - 1, st, n);
      }
      assert Breaks(prev) == j - 1 by {
        TokenUpToLines(pieces, j - 1, st, n);
      }
      assert LabelsAfterBreaks(q, n + Breaks(prev)) by {
        PiecePlaced(pieces, j, st, n);
      }
      AfterBreaksAppend(prev, q, n);
      assert TokenUpTo(pieces, j, st, n) == prev + q;
    }
  }

  /** Inside a token that starts on line n, every label is on line n plus
      the breaks before it, and is painted right after a line break and the
      switch to gray. */
  lemma TokenLabelsPlaced(text: string, st: Style, n: nat)
    ensures var t := TokenInstrs(text, st, n);
      forall p :: 0 <= p < |t| && t[p].Label? ==>
        t[p].line == n + Breaks(t[..p]) && 2 <= p && t[p - 2..p] == [Ln, SetColor(Gray)]
  {
    TokenUpToPlaced(Split(text), |Split(text)|, st, n);
  }

  /** The prologue's label is line 1, with no break before it. */
  lemma ProloguePlaced(d: Rgb)
    ensures LabelsPlaced(Prologue(d), 1)
  {
    var pr := Prologue(d);
    forall p: nat | p < |pr|
      ensures PlacedAt(pr, 1, p)
    {
      assert pr[..2] == [SetFont("")] + [SetColor(Gray)];
      ConsViews(SetColor(Gray), []);
      assert [SetColor(Gray)] + [] == [SetColor(Gray)];
      ConsViews(SetFont(""), [SetColor(Gray)]);
    }
  }

  lemma {:induction false} EmittedByPlaced<K>(ts: seq<Token<K>>, styleOf: K -> Style, d: Rgb, tok: TokenRenderer)
    requires forall text, st, n: nat :: LabelsAfterBreaks(tok(text, st, n), n)
    requires forall text, st, n: nat :: Breaks(tok(text, st, n)) == Count(text, '\n')
    ensures LabelsPlaced(EmittedBy(ts, styleOf, d, tok), 1)
    decreases |ts|
  {
    if ts == [] {
      ProloguePlaced(d);
    } else {
      var init := ts[..|ts| - 1];
      var last := ts[|ts| - 1];
      var m := Count(AllText(init), '\n');
      var a := EmittedBy(init, styleOf, d, tok);
      var t := tok(last.text, styleOf(last.kind), 1 + m);
      assert LabelsPlaced(a, 1) by {
        EmittedByPlaced(init, styleOf, d, tok);
      }
      assert Breaks(a) == m by {
        EmittedByBreaks(init, styleOf, d, tok);
      }
      assert LabelsAfterBreaks(t, 1 + Breaks(a));
      PlacedAppend(a, t, 1);
      assert EmittedBy(ts, styleOf, d, tok) == a + t;
    }
  }

  lemma EmittedPlaced<K>(ts: seq<Token<K>>, styleOf: K -> Style, d: Rgb)
    ensures LabelsPlaced(Emitted(ts, styleOf, d), 1)
  {
    forall text, st, n: nat ensures LabelsAfterBreaks(TokenInstrs(text, st, n), n) {
      TokenUpToPlaced(Split(text), |Split(text)|, st, n);
    }
    TokensBreak();
    EmittedByPlaced(ts, styleOf, d, TokenInstrs);
    EmittedIsBy(ts, styleOf, d);
  }

  /** Across a file, every label is on line 1 plus the breaks before it,
      and every label past line 1 is painted right after a line break and
      the switch to gray: a line's number comes at its start. */
  lemma FileLabelsPlaced<K>(ts: seq<Token<K>>, styleOf: K -> Style, d: Rgb)
    ensures var r := RenderFile(ts, styleOf, d);
      forall p :: 0 <= p < |r| && r[p].Label? ==>
        r[p].line == 1 + Breaks(r[..p]) && (r[p].line > 1 ==> 2 <= p && r[p - 2..p] == [Ln, SetColor(Gray)])
  {
    var e := Emitted(ts, styleOf, d);
    var r := RenderFile(ts, styleOf, d);
    EmittedPlaced(ts, styleOf, d);
    assert LabelsAfterBreaks([SetColor(d)], 1 + Breaks(e));
    PlacedAppend(e, [SetColor(d)], 1);
    forall p | 0 <= p < |r| && r[p].Label?
      ensures r[p].line == 1 + Breaks(r[..p]) && (r[p].line > 1 ==> 2 <= p && r[p - 2..p] == [Ln, SetColor(Gray)])
    {
      assert PlacedAt(r, 1, p);
    }
  }

  // ----- Label text -----

  /** The label text is the numeral right-aligned in a 4-column field
      padded with spaces, then a space: five characters for numbers below
      10000, and the numeral in full above. */
  lemma LabelTextShape(line: nat)
    ensures var d := Decimal(line);
      var pad := if |d| < 4 then 4 - |d| else 0;
      var t := LabelText(line);
      |t| == pad + |d| + 1 && t[|t| - 1] == ' ' && LeadingSpaces(t) == pad && t[pad..|t| - 1] == d
    ensures line < 10000 ==> |LabelText(line)| == 5
  {
    var d := Decimal(line);
    var pad := if |d| < 4 then 4 - |d| else 0;
    var t := LabelText(line);
    assert t == Spaces(pad) + (d + " ");
    assert (d + " ")[0] == d[0];
    LeadingSpacesOfPadded(pad, d + " ");
    assert t[pad..|t| - 1] == d;
    if line < 10000 {
      DecimalBelow10000(line);
    }
  }

  /** The number of spaces a string starts with. */
  function LeadingSpaces(s: string): nat
  {
    if s != [] && s[0] == ' ' then 1 + LeadingSpaces(s[1..]) else 0
  }

  lemma {:induction false} LeadingSpacesOfPadded(k: nat, d: string)
    requires d != [] && d[0] != ' '
    ensures LeadingSpaces(Spaces(k) + d) == k
  {
    if k > 0 {
      assert (Spaces(k) + d)[1..] == Spaces(k - 1) + d;
      LeadingSpacesOfPadded(k - 1, d);
    } else {
      assert Spaces(0) + d == d;
    }
  }

  /** Different lines get different label texts, so a label's text names
      its line. */
  lemma LabelTextInjective(m: nat, n: nat)
    requires LabelText(m) == LabelText(n)
    ensures m == n
  {
    LabelTextShape(m);
    LabelTextShape(n);
    ParseDecimalOfDecimal(m);
    ParseDecimalOfDecimal(n);
  }
}

/** String operations the renderer and the colour parser rely on:
    counting a character, Python's str.split('\n') and '\n'.join, the
    latin-1 "replace" round trip applied to every painted string, and
    decimal numerals for the line-number labels. */
module Strings {

  /** Number of occurrences of c in s. */
  function Count(s: string, c: char): nat
  {
    if s == [] then 0 else (if s[0] == c then 1 else 0) + Count(s[1..], c)
  }

  lemma {:induction false} CountAppend(a: string, b: string, c: char)
    ensures Count(a + b, c) == Count(a, c) + Count(b, c)
  {
    if a == [] {
      assert a + b == b;
    } else {
      assert (a + b)[1..] == a[1..] + b;
      CountAppend(a[1..], b, c);
    }
  }

  lemma {:induction false} CountAbsent(s: string, c: char)
    requires c !in s
    ensures Count(s, c) == 0
  {
    if s != [] {
      assert s[0] != c;
      assert forall x :: x in s[1..] ==> x in s;
      CountAbsent(s[1..], c);
    }
  }

  /** Python's s.split('\n'): the newline-free pieces of s between its
      newlines, in order, empty pieces included. */
  function Split(s: string): (r: seq<string>)
    ensures |r| == Count(s, '\n') + 1
  {
    if s == [] then [""]
    else
      var rest := Split(s[1..]);
      if s[0] == '\n' then [""] + rest
      else [[s[0]] + rest[0]] + rest[1..]
  }

  /** No piece contains a newline. */
  lemma {:induction false} SplitNewlineFreePieces(s: string)
    ensures forall k :: 0 <= k < |Split(s)| ==> '\n' !in Split(s)[k]
  {
    if s != [] {
      SplitNewlineFreePieces(s[1..]);
      var rest := Split(s[1..]);
      if s[0] != '\n' {
        assert '\n' !in [s[0]] + rest[0];
      }
    }
  }

  /** Python's '\n'.join(segs). */
  function Join(segs: seq<string>): string
    requires |segs| >= 1
  {
    if |segs| == 1 then segs[0]
    else Join(segs[..|segs| - 1]) + "\n" + segs[|segs| - 1]
  }

  lemma {:induction false} JoinCons(x: string, segs: seq<string>)
    requires |segs| >= 1
    ensures Join([x] + segs) == x + "\n" + Join(segs)
  {
    if |segs| > 1 {
      var init := segs[..|segs| - 1];
      assert ([x] + segs)[..|segs|] == [x] + init;
      JoinCons(x, init);
    }
  }

  lemma {:induction false} JoinExtendHead(c: char, segs: seq<string>)
    requires |segs| >= 1
    ensures Join([[c] + segs[0]] + segs[1..]) == [c] + Join(segs)
  {
    var s' := [[c] + segs[0]] + segs[1..];
    if |segs| > 1 {
      var init := segs[..|segs| - 1];
      assert s'[..|s'| - 1] == [[c] + init[0]] + init[1..];
      assert s'[|s'| - 1] == segs[|segs| - 1];
      JoinExtendHead(c, init);
      assert Join(s') == [c] + Join(init) + "\n" + segs[|segs| - 1];
    } else {
      assert s' == [[c] + segs[0]];
    }
  }

  /** Joining the pieces with newlines gives the string back. */
  lemma {:induction false} JoinSplit(s: string)
    ensures Join(Split(s)) == s
  {
    if s != [] {
      var rest := Split(s[1..]);
      JoinSplit(s[1..]);
      if s[0] == '\n' {
        JoinCons("", rest);
      } else {
        JoinExtendHead(s[0], rest);
      }
    }
  }

  lemma {:induction false} SplitNewlineFree(s: string)
    requires '\n' !in s
    ensures Split(s) == [s]
  {
    CountAbsent(s, '\n');
    if s != [] {
      assert forall x :: x in s[1..] ==> x in s;
      SplitNewlineFree(s[1..]);
      assert [s[0]] + s[1..] == s;
    }
  }

  lemma {:induction false} SplitAtNewline(a: string, b: string)
    ensures Split(a + "\n" + b) == Split(a) + Split(b)
  {
    if a == [] {
      assert a + "\n" + b == "\n" + b;
      assert ("\n" + b)[1..] == b;
    } else {
      assert (a + "\n" + b)[1..] == a[1..] + "\n" + b;
      SplitAtNewline(a[1..], b);
    }
  }

  /** Splitting newline-free pieces joined with newlines gives the pieces
      back: Split and Join are inverse to each other. */
  lemma {:induction false} SplitJoin(segs: seq<string>)
    requires |segs| >= 1
    requires forall k :: 0 <= k < |segs| ==> '\n' !in segs[k]
    ensures Split(Join(segs)) == segs
  {
    if |segs| == 1 {
      SplitNewlineFree(segs[0]);
    } else {
      var init := segs[..|segs| - 1];
      SplitJoin(init);
      SplitAtNewline(Join(init), segs[|segs| - 1]);
      SplitNewlineFree(segs[|segs| - 1]);
      assert init + [segs[|segs| - 1]] == segs;
    }
  }

  /** What c.encode('latin-1', 'replace').decode('latin-1') gives: the
      character itself when latin-1 can encode it, '?' otherwise. */
  function Latin1Char(c: char): char
  {
    if c as int < 256 then c else '?'
  }

  /** The latin-1 "replace" round trip every painted string goes through:
      same length, only latin-1 characters, each character kept when
      latin-1 has it. */
  function Latin1(s: string): (r: string)
    ensures |r| == |s|
  {
    if s == [] then [] else [Latin1Char(s[0])] + Latin1(s[1..])
  }

  lemma {:induction false} Latin1Pointwise(s: string)
    ensures forall i :: 0 <= i < |s| ==> Latin1(s)[i] == Latin1Char(s[i]) && Latin1(s)[i] as int < 256
  {
    if s != [] {
      Latin1Pointwise(s[1..]);
    }
  }

  /** The round trip keeps newlines and introduces none. */
  lemma Latin1Newlines(s: string)
    ensures ('\n' in Latin1(s)) == ('\n' in s)
  {
    var r := Latin1(s);
    Latin1Pointwise(s);
    if '\n' in r {
      var i :| 0 <= i < |r| && r[i] == '\n';
      assert s[i] == '\n';
    }
    if '\n' in s {
      var i :| 0 <= i < |s| && s[i] == '\n';
      assert r[i] == '\n';
    }
  }

  lemma {:induction false} Latin1Append(a: string, b: string)
    ensures Latin1(a + b) == Latin1(a) + Latin1(b)
  {
    if a == [] {
      assert a + b == b;
    } else {
      assert (a + b)[1..] == a[1..] + b;
      Latin1Append(a[1..], b);
    }
  }

  /** Text latin-1 can encode comes through unchanged. */
  lemma Latin1Identity(s: string)
    requires forall i :: 0 <= i < |s| ==> s[i] as int < 256
    ensures Latin1(s) == s
  {
    Latin1Pointwise(s);
  }

  /** k spaces. */
  function Spaces(k: nat): (s: string)
    ensures |s| == k
  {
    if k == 0 then "" else " " + Spaces(k - 1)
  }

  function DigitChar(d: nat): (c: char)
    requires d < 10
    ensures '0' <= c <= '9'
  {
    ('0' as int + d) as char
  }

  predicate IsDigits(s: string)
  {
    forall i :: 0 <= i < |s| ==> '0' <= s[i] <= '9'
  }

  /** The decimal numeral of n, as str(n) gives it: digits only, and no
      leading zero unless n is 0. */
  function Decimal(n: nat): (r: string)
    ensures |r| >= 1 && IsDigits(r)
    ensures r[0] == '0' ==> n == 0
    decreases n
  {
    if n < 10 then [DigitChar(n)] else Decimal(n / 10) + [DigitChar(n % 10)]
  }

  /** The value of a numeral. */
  function ParseDecimal(s: string): nat
    requires IsDigits(s)
  {
    if s == [] then 0
    else 10 * ParseDecimal(s[..|s| - 1]) + (s[|s| - 1] as int - '0' as int)
  }

  lemma {:induction false} ParseDecimalOfDecimal(n: nat)
    ensures ParseDecimal(Decimal(n)) == n
    decreases n
  {
    if n >= 10 {
      var d := Decimal(n);
      assert d[..|d| - 1] == Decimal(n / 10);
      ParseDecimalOfDecimal(n / 10);
    }
  }

  /** A numeral of a number below 10000 has at most four digits. */
  lemma DecimalBelow10000(n: nat)
    requires n < 10000
    ensures |Decimal(n)| <= 4
  {
    if n >= 10 {
      assert |Decimal(n / 10)| <= 3 by {
        if n / 10 >= 10 {
          assert |Decimal(n / 100)| <= 2 by {
            if n / 100 >= 10 {
              assert n / 100 / 10 < 10;
            }
          }
        }
      }
    }
  }
}

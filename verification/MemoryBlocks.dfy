/** Numbered memory blocks: the renderer of a context and the parser that takes it apart again. */
module MemoryBlocks {
  import opened Wrappers

  const TITLE: string := "## Memory "

  /** The decimal digits of a number. */
  function Decimal(n: nat): (s: string)
    ensures s != [] && forall i :: 0 <= i < |s| ==> '0' <= s[i] <= '9'
  {
    if n < 10 then ['0' + n as char] else Decimal(n / 10) + ['0' + (n % 10) as char]
  }

  function Header(k: nat): string {
    TITLE + Decimal(k) + "\n"
  }

  /** The blocks `## Memory k`, `## Memory k + 1`, ..., joined by blank lines. */
  function RenderFrom(bodies: seq<string>, k: nat): string {
    if bodies == [] then ""
    else if |bodies| == 1 then Header(k) + bodies[0]
    else Header(k) + bodies[0] + "\n\n" + RenderFrom(bodies[1..], k + 1)
  }

  function Render(bodies: seq<string>): string {
    RenderFrom(bodies, 1)
  }

  /** The first newline at or after `i`, or the end. */
  function LineEnd(s: string, i: nat): (e: nat)
    requires i <= |s|
    ensures i <= e <= |s|
    decreases |s| - i
  {
    if i == |s| || s[i] == '\n' then i else LineEnd(s, i + 1)
  }

  function Total(marks: seq<bool>): nat {
    if marks == [] then 0 else Total(marks[..|marks| - 1]) + if marks[|marks| - 1] then 1 else 0
  }

  lemma {:induction false} TotalConcat(a: seq<bool>, b: seq<bool>)
    ensures Total(a + b) == Total(a) + Total(b)
  {
    if b == [] {
      assert a + b == a;
    } else {
      var n := |b| - 1;
      TotalConcat(a, b[..n]);
      assert (a + b)[..|a + b| - 1] == a + b[..n];
    }
  }

  lemma {:induction false} TotalZero(marks: seq<bool>)
    ensures Total(marks) == 0 <==> forall i :: 0 <= i < |marks| ==> !marks[i]
  {
    if marks != [] {
      var n := |marks| - 1;
      TotalZero(marks[..n]);
      assert forall i :: 0 <= i < n ==> marks[..n][i] == marks[i];
    }
  }

  lemma TotalSplit(marks: seq<bool>, n: nat)
    requires n <= |marks|
    ensures Total(marks) == Total(marks[..n]) + Total(marks[n..])
  {
    TotalConcat(marks[..n], marks[n..]);
    assert marks == marks[..n] + marks[n..];
  }

  lemma FirstMark(marks: seq<bool>)
    requires marks != []
    ensures Total(marks) == (if marks[0] then 1 else 0) + Total(marks[1..])
  {
    TotalSplit(marks, 1);
    assert marks[..1][..0] == [];
  }

  lemma TotalOfFirst(marks: seq<bool>)
    requires marks != [] && forall i :: 0 <= i < |marks| ==> marks[i] == (i == 0)
    ensures Total(marks) == 1
  {
    FirstMark(marks);
    TotalZero(marks[1..]);
  }

  lemma TotalOfNone(marks: seq<bool>)
    requires forall i :: 0 <= i < |marks| ==> !marks[i]
    ensures Total(marks) == 0
  {
    TotalZero(marks);
  }

  lemma TotalOfParts(a: seq<bool>, b: seq<bool>, c: seq<bool>, d: seq<bool>)
    ensures Total(a + b + c + d) == Total(a) + Total(b) + Total(c) + Total(d)
  {
    TotalConcat(a, b);
    TotalConcat(a + b, c);
    TotalConcat(a + b + c, d);
  }

  lemma FourParts(marks: seq<bool>, a: nat, b: nat, c: nat)
    requires a <= b <= c <= |marks|
    ensures marks == marks[..a] + marks[a..b] + marks[b..c] + marks[c..]
  {
  }

  /** The character classes of the regular expressions and of `strip`. */
  datatype Alphabet = Alphabet(digit: char -> bool, word: char -> bool, space: char -> bool) {

    /** What holds of Unicode's classes and is needed here. */
    ghost predicate Sane() {
      && (forall c :: '0' <= c <= '9' ==> digit(c) && !space(c))
      && (forall c :: digit(c) ==> word(c))
      && space('\n') && !word('\n') && !space('#')
    }

    /** The end of the digits that start at `i`. */
    function DigitsEnd(s: string, i: nat): (e: nat)
      requires i <= |s|
      ensures i <= e <= |s|
      ensures forall j :: i <= j < e ==> digit(s[j])
      ensures e < |s| ==> !digit(s[e])
      decreases |s| - i
    {
      if i < |s| && digit(s[i]) then DigitsEnd(s, i + 1) else i
    }

    /** `(?m)(?=^## Memory \d+\b)` matches at `i`; all digits are taken, as no fewer end at a word boundary. */
    predicate Boundary(s: string, i: nat) {
      && (i == 0 || (i <= |s| && s[i - 1] == '\n'))
      && HasAt(s, i, TITLE)
      && var start := i + |TITLE|;
         var end := DigitsEnd(s, start);
         start < end && (end == |s| || !word(s[end]))
    }

    function NextBoundary(s: string, i: nat): (b: nat)
      requires i <= |s|
      ensures i <= b <= |s|
      ensures b < |s| ==> Boundary(s, b)
      ensures forall j :: i <= j < b ==> !Boundary(s, j)
      decreases |s| - i
    {
      if i == |s| || Boundary(s, i) then i else NextBoundary(s, i + 1)
    }

    /** The pieces between boundaries. A boundary is a line start, so what follows it can be split on its own. */
    function Pieces(s: string): seq<string>
      decreases |s|
    {
      if s == "" then []
      else
        var b := NextBoundary(s, 1);
        [s[..b]] + Pieces(s[b..])
    }

    function StripLeft(s: string): (t: string)
      ensures |t| <= |s|
      ensures t == "" || !space(t[0])
    {
      if s == "" || !space(s[0]) then s else StripLeft(s[1..])
    }

    function StripRight(s: string): (t: string)
      ensures |t| <= |s| && t == s[..|t|]
      ensures t == "" || !space(t[|t| - 1])
    {
      if s == "" || !space(s[|s| - 1]) then s else StripRight(s[..|s| - 1])
    }

    function Strip(s: string): (t: string)
      ensures Stripped(t)
    {
      StripRight(StripLeft(s))
    }

    predicate Stripped(s: string) {
      s == "" || (!space(s[0]) && !space(s[|s| - 1]))
    }

    /** `MEMORY_HEADER.sub("", block, count=1)` for `^## Memory \d+[^\n]*\n`. */
    function WithoutHeader(block: string): string {
      if HasAt(block, 0, TITLE) && |TITLE| < |block| && digit(block[|TITLE|]) then
        var end := LineEnd(block, |TITLE|);
        if end < |block| then block[end + 1..] else block
      else block
    }

    /** What becomes of one piece: nothing when it is blank, else its body. */
    function Body(piece: string): string {
      Strip(WithoutHeader(Strip(piece)))
    }

    function BodiesOf(pieces: seq<string>): seq<string> {
      if pieces == [] then []
      else if Strip(pieces[0]) == "" then BodiesOf(pieces[1..])
      else [Body(pieces[0])] + BodiesOf(pieces[1..])
    }

    /** `split_memory_bodies`. */
    function SplitBodies(context: string): seq<string> {
      BodiesOf(Pieces(context))
    }

    predicate HasNoBoundary(s: string) {
      forall i :: 0 <= i < |s| ==> !Boundary(s, i)
    }

    /** A body that survives: stripped, not empty, and without a block title of its own. */
    predicate IsPlain(body: string) {
      Stripped(body) && body != "" && HasNoBoundary(body)
    }

    // -------------------------------------------------------------- boundaries in context

    lemma {:induction false} DigitsEndInContext(p: string, b: string, u: string, i: nat)
      requires Sane() && i <= |b| && (u == "" || !digit(u[0]))
      ensures DigitsEnd(p + b + u, |p| + i) == |p| + DigitsEnd(b, i)
      decreases |b| - i
    {
      if i < |b| {
        assert (p + b + u)[|p| + i] == b[i];
        DigitsEndInContext(p, b, u, i + 1);
      } else if u != "" {
        assert (p + b + u)[|p| + i] == u[0];
      }
    }

    /** A boundary inside a body depends on the body alone, between a line start and a line end. */
    lemma BoundaryInContext(p: string, b: string, u: string, i: nat)
      requires Sane() && i < |b|
      requires p != "" && p[|p| - 1] == '\n' && (u == "" || u[0] == '\n')
      ensures Boundary(p + b + u, |p| + i) <==> Boundary(b, i)
    {
      var s := p + b + u;
      assert i > 0 ==> s[|p| + i - 1] == b[i - 1];
      assert i == 0 ==> s[|p| + i - 1] == '\n';
      TitleInContext(p, b, u, i);
      if HasAt(b, i, TITLE) {
        var start := i + |TITLE|;
        DigitsEndInContext(p, b, u, start);
        var end := DigitsEnd(b, start);
        if end < |b| { assert s[|p| + end] == b[end]; } else if u != "" { assert s[|p| + end] == '\n'; }
      }
    }

    lemma TitleInContext(p: string, b: string, u: string, i: nat)
      requires i < |b| && (u == "" || u[0] == '\n')
      ensures HasAt(p + b + u, |p| + i, TITLE) <==> HasAt(b, i, TITLE)
    {
      var s := p + b + u;
      assert forall x :: i <= x < |b| ==> b[x] == s[|p| + x];
      if i + |TITLE| > |b| && u != "" {
        assert s[|p| + i + (|b| - i)] == '\n' != TITLE[|b| - i];
      }
    }

    /** After a line start, the rest of a text has the boundaries it has on its own. */
    lemma BoundaryInTail(p: string, t: string, i: nat)
      requires Sane() && i < |t| && p != "" && p[|p| - 1] == '\n'
      ensures Boundary(p + t, |p| + i) <==> Boundary(t, i)
    {
      BoundaryInContext(p, t, "", i);
      assert p + t + "" == p + t;
    }

    // -------------------------------------------------------------- one rendered block

    lemma TitleLine(k: nat, rest: string)
      requires Sane()
      ensures Boundary(Header(k) + rest, 0)
      ensures forall i :: 0 <= i < |Header(k)| - 1 ==> (Header(k) + rest)[i] != '\n'
    {
      var s, digits := Header(k) + rest, Decimal(k);
      assert s == TITLE + digits + ("\n" + rest);
      DigitsEndInContext(TITLE, digits, "\n" + rest, 0);
      AllDigits(digits, 0);
      assert s[|TITLE| + |digits|] == '\n';
    }

    lemma {:induction false} AllDigits(s: string, i: nat)
      requires i <= |s| && forall j :: i <= j < |s| ==> digit(s[j])
      ensures DigitsEnd(s, i) == |s|
      decreases |s| - i
    {
      if i < |s| { AllDigits(s, i + 1); }
    }

    /** What separates a block from the next one. */
    function Separator(rest: string): string {
      if rest == "" then "" else "\n\n"
    }

    function Block(k: nat, body: string, rest: string): string {
      Header(k) + body + Separator(rest) + rest
    }

    lemma RenderIsBlocks(bodies: seq<string>, k: nat)
      requires bodies != []
      ensures RenderFrom(bodies, k) == Block(k, bodies[0], RenderFrom(bodies[1..], k + 1))
      ensures RenderFrom(bodies, k) != ""
    {
      if |bodies| > 1 { assert RenderFrom(bodies[1..], k + 1) != ""; }
    }

    lemma NoTitleAtNewline(s: string, i: nat)
      requires i < |s| && s[i] == '\n'
      ensures !Boundary(s, i)
    {
      assert s[i + 0] == '\n' != TITLE[0];
    }

    lemma NoBoundaryInHeader(k: nat, tail: string, i: nat)
      requires Sane() && 1 <= i < |Header(k)|
      ensures !Boundary(Header(k) + tail, i)
    {
      TitleLine(k, tail);
      assert (Header(k) + tail)[i - 1] != '\n';
    }

    lemma BlockHeader(k: nat, body: string, rest: string, i: nat)
      requires Sane() && 1 <= i < |Header(k)|
      ensures !Boundary(Block(k, body, rest), i)
    {
      assert Block(k, body, rest) == Header(k) + (body + (Separator(rest) + rest));
      NoBoundaryInHeader(k, body + (Separator(rest) + rest), i);
    }

    lemma BlockParts(k: nat, body: string, rest: string)
      ensures var tail := Separator(rest) + rest;
        && Block(k, body, rest) == Header(k) + body + tail
        && (tail == "" || tail[0] == '\n')
        && Header(k) != "" && Header(k)[|Header(k)| - 1] == '\n'
    {
    }

    /** Where a body stands in its block, its boundaries are its own. */
    lemma BlockBody(k: nat, body: string, rest: string, i: nat)
      requires Sane() && i < |body|
      ensures Boundary(Block(k, body, rest), |Header(k)| + i) <==> Boundary(body, i)
    {
      BlockParts(k, body, rest);
      BoundaryInContext(Header(k), body, Separator(rest) + rest, i);
    }

    lemma BlockSeparator(k: nat, body: string, rest: string, i: nat)
      requires |Header(k)| + |body| <= i < |Block(k, body, rest)| - |rest|
      ensures !Boundary(Block(k, body, rest), i)
    {
      NoTitleAtNewline(Block(k, body, rest), i);
    }

    lemma BoundaryOfRest(k: nat, body: string, rest: string, i: nat)
      requires Sane() && i < |rest|
      ensures Boundary(Block(k, body, rest), |Block(k, body, rest)| - |rest| + i) <==> Boundary(rest, i)
    {
      var p := Header(k) + body + Separator(rest);
      assert Block(k, body, rest) == p + rest;
      BoundaryInTail(p, rest, i);
    }

    /** A plain block is one piece, and its rest is split on its own. */
    lemma PlainBlock(k: nat, body: string, rest: string)
      requires Sane() && HasNoBoundary(body) && (rest != "" ==> Boundary(rest, 0))
      ensures Pieces(Block(k, body, rest)) == [Header(k) + body + Separator(rest)] + Pieces(rest)
    {
      var s := Block(k, body, rest);
      var cut := |s| - |rest|;
      var h := |Header(k)|;
      forall i | 1 <= i < cut ensures !Boundary(s, i) {
        if i < h { BlockHeader(k, body, rest, i); }
        else if i < h + |body| { BlockBody(k, body, rest, i - h); }
        else { BlockSeparator(k, body, rest, i); }
      }
      if rest != "" { BoundaryOfRest(k, body, rest, 0); }
      assert NextBoundary(s, 1) == cut;
      assert s[..cut] == Header(k) + body + Separator(rest) && s[cut..] == rest;
    }

    // -------------------------------------------------------------- the body of a rendered block

    lemma {:induction false} StripRightPrefix(s: string)
      requires s != "" && !space(s[0])
      ensures StripRight(s) != ""
    {
      if space(s[|s| - 1]) { StripRightPrefix(s[..|s| - 1]); }
    }

    lemma {:induction false} StripTail(s: string, tail: string)
      requires s != "" && Stripped(s) && forall i :: 0 <= i < |tail| ==> space(tail[i])
      ensures Strip(s + tail) == s
    {
      var t := s + tail;
      assert StripLeft(t) == t;
      if tail == "" {
        assert t == s;
      } else {
        var front := tail[..|tail| - 1];
        assert t[..|t| - 1] == s + front && StripLeft(s + front) == s + front;
        StripTail(s, front);
      }
    }

    lemma {:induction false} LineEndIs(s: string, i: nat, e: nat)
      requires i <= e <= |s| && (forall j :: i <= j < e ==> s[j] != '\n') && (e < |s| ==> s[e] == '\n')
      ensures LineEnd(s, i) == e
      decreases e - i
    {
      if i < e { LineEndIs(s, i + 1, e); }
    }

    lemma HeaderIsRemoved(k: nat, body: string)
      requires Sane()
      ensures WithoutHeader(Header(k) + body) == body
    {
      var s := Header(k) + body;
      TitleLine(k, body);
      assert s[|TITLE|] == Decimal(k)[0];
      LineEndIs(s, |TITLE|, |Header(k)| - 1);
    }

    lemma BodyOfBlock(k: nat, body: string, rest: string)
      requires Sane() && Stripped(body) && body != ""
      ensures Body(Header(k) + body + Separator(rest)) == body
      ensures Strip(Header(k) + body + Separator(rest)) != ""
    {
      StripTail(Header(k) + body, Separator(rest));
      HeaderIsRemoved(k, body);
      StripTail(body, "");
      assert body + "" == body;
    }

    /** An empty body comes back as its own title. */
    lemma BodyOfEmptyBlock(k: nat, rest: string)
      requires Sane()
      ensures Body(Header(k) + "" + Separator(rest)) != ""
    {
      var title := TITLE + Decimal(k);
      var digits := Decimal(k);
      assert Stripped(title) by { assert title[|title| - 1] == digits[|digits| - 1]; }
      assert Header(k) + "" + Separator(rest) == title + "\n" + Separator(rest);
      assert title + "\n" + Separator(rest) == title + ("\n" + Separator(rest));
      StripTail(title, "\n" + Separator(rest));
      TitleLine(k, "");
      assert forall i :: 0 <= i < |title| ==> title[i] == (Header(k) + "")[i];
      LineEndIs(title, |TITLE|, |title|);
      StripTail(title, "");
      assert title + "" == title;
    }

    /** Splitting undoes rendering on plain bodies. */
    lemma {:induction false} PlainBodiesRoundTrip(bodies: seq<string>, k: nat)
      requires Sane() && forall i :: 0 <= i < |bodies| ==> IsPlain(bodies[i])
      ensures SplitBodies(RenderFrom(bodies, k)) == bodies
      ensures bodies != [] ==> Boundary(RenderFrom(bodies, k), 0)
    {
      if bodies != [] {
        var rest := RenderFrom(bodies[1..], k + 1);
        PlainBodiesRoundTrip(bodies[1..], k + 1);
        RenderIsBlocks(bodies, k);
        PlainBlockSplits(k, bodies[0], rest);
        assert bodies == [bodies[0]] + bodies[1..];
      }
    }

    lemma PlainBlockSplits(k: nat, body: string, rest: string)
      requires Sane() && IsPlain(body) && (rest != "" ==> Boundary(rest, 0))
      ensures SplitBodies(Block(k, body, rest)) == [body] + SplitBodies(rest)
      ensures Boundary(Block(k, body, rest), 0)
    {
      PlainBlock(k, body, rest);
      BodyOfBlock(k, body, rest);
      BlockStarts(k, body, rest);
      var piece := Header(k) + body + Separator(rest);
      assert ([piece] + Pieces(rest))[1..] == Pieces(rest);
    }

    lemma BlockStarts(k: nat, body: string, rest: string)
      requires Sane()
      ensures Boundary(Block(k, body, rest), 0)
    {
      assert Block(k, body, rest) == Header(k) + (body + Separator(rest) + rest);
      TitleLine(k, body + Separator(rest) + rest);
    }

    // -------------------------------------------------------------- only plain bodies survive

    /** Where the boundaries of a text are. */
    function Marks(s: string): (marks: seq<bool>)
      ensures |marks| == |s| && forall i :: 0 <= i < |s| ==> marks[i] == Boundary(s, i)
    {
      seq(|s|, i requires 0 <= i < |s| => Boundary(s, i))
    }

    lemma MarksOfTail(s: string, b: nat)
      requires Sane() && 0 < b < |s| && s[b - 1] == '\n'
      ensures Marks(s)[b..] == Marks(s[b..])
    {
      var p, t := s[..b], s[b..];
      assert s == p + t;
      forall i | 0 <= i < |t| ensures Marks(s)[b..][i] == Marks(t)[i] { BoundaryInTail(p, t, i); }
    }

    lemma MarksAtCut(s: string, b: nat)
      requires Sane() && s != "" && b == NextBoundary(s, 1)
      ensures Total(Marks(s)[1..]) == Total(Marks(s[b..]))
    {
      var marks := Marks(s);
      TotalSplit(marks[1..], b - 1);
      assert marks[1..][b - 1..] == marks[b..];
      TotalOfNone(marks[1..][..b - 1]);
      if b < |s| {
        MarksOfTail(s, b);
      } else {
        assert marks[b..] == Marks(s[b..]);
      }
    }

    lemma CutStarts(s: string, b: nat)
      requires Sane() && s != "" && b == NextBoundary(s, 1) < |s|
      ensures Marks(s[b..])[0]
    {
      MarksOfTail(s, b);
      assert Marks(s)[b..][0] == Marks(s)[b];
    }

    /** One piece, and one more for every boundary after the first position. */
    lemma {:induction false} PieceCount(s: string)
      requires Sane() && s != ""
      ensures |Pieces(s)| == 1 + Total(Marks(s)[1..])
      decreases |s|
    {
      var b := NextBoundary(s, 1);
      MarksAtCut(s, b);
      if b < |s| {
        CutStarts(s, b);
        FirstMark(Marks(s[b..]));
        PieceCount(s[b..]);
      }
    }

    lemma StartCount(s: string)
      requires Sane() && (s != "" ==> Boundary(s, 0))
      ensures |Pieces(s)| == Total(Marks(s))
    {
      if s != "" {
        PieceCount(s);
        FirstMark(Marks(s));
      }
    }

    /** A block's marks: one at its title, none in the rest of the title line, the body's own, none in the gap. */
    lemma MarksOfBlock(k: nat, body: string, rest: string) returns (head: seq<bool>, gap: seq<bool>)
      requires Sane()
      ensures Marks(Block(k, body, rest)) == head + Marks(body) + gap + Marks(rest)
      ensures head != [] && (forall i :: 0 <= i < |head| ==> head[i] == (i == 0))
      ensures forall i :: 0 <= i < |gap| ==> !gap[i]
    {
      var h := |Header(k)|;
      var marks := Marks(Block(k, body, rest));
      head, gap := marks[..h], marks[h + |body|..|marks| - |rest|];
      HeadMarks(k, body, rest);
      BodyMarks(k, body, rest);
      GapMarks(k, body, rest);
      RestMarks(k, body, rest);
      FourParts(marks, h, h + |body|, |marks| - |rest|);
    }

    lemma HeadMarks(k: nat, body: string, rest: string)
      requires Sane()
      ensures forall i :: 0 <= i < |Header(k)| ==> Marks(Block(k, body, rest))[i] == (i == 0)
    {
      forall i | 0 <= i < |Header(k)| ensures Boundary(Block(k, body, rest), i) == (i == 0) {
        if i == 0 { BlockStarts(k, body, rest); } else { BlockHeader(k, body, rest, i); }
      }
    }

    lemma GapMarks(k: nat, body: string, rest: string)
      requires Sane()
      ensures forall i :: |Header(k)| + |body| <= i < |Block(k, body, rest)| - |rest| ==> !Marks(Block(k, body, rest))[i]
    {
      forall i | |Header(k)| + |body| <= i < |Block(k, body, rest)| - |rest| ensures !Boundary(Block(k, body, rest), i) {
        BlockSeparator(k, body, rest, i);
      }
    }

    lemma BodyMarks(k: nat, body: string, rest: string)
      requires Sane()
      ensures Marks(Block(k, body, rest))[|Header(k)|..|Header(k)| + |body|] == Marks(body)
    {
      forall i | 0 <= i < |body| ensures Marks(Block(k, body, rest))[|Header(k)| + i] == Marks(body)[i] {
        BlockBody(k, body, rest, i);
      }
    }

    lemma RestMarks(k: nat, body: string, rest: string)
      requires Sane()
      ensures Marks(Block(k, body, rest))[|Block(k, body, rest)| - |rest|..] == Marks(rest)
    {
      var s := Block(k, body, rest);
      forall i | 0 <= i < |rest| ensures Marks(s)[|s| - |rest| + i] == Marks(rest)[i] {
        BoundaryOfRest(k, body, rest, i);
      }
    }

    lemma BlockTotal(k: nat, body: string, rest: string)
      requires Sane()
      ensures Total(Marks(Block(k, body, rest))) == 1 + Total(Marks(body)) + Total(Marks(rest))
    {
      var head, gap := MarksOfBlock(k, body, rest);
      TotalOfParts(head, Marks(body), gap, Marks(rest));
      TotalOfFirst(head);
      TotalOfNone(gap);
    }

    lemma BlockPieces(k: nat, body: string, rest: string)
      requires Sane() && (rest != "" ==> Boundary(rest, 0))
      ensures |Pieces(Block(k, body, rest))| == 1 + Total(Marks(body)) + |Pieces(rest)|
    {
      BlockStarts(k, body, rest);
      StartCount(Block(k, body, rest));
      StartCount(rest);
      BlockTotal(k, body, rest);
    }

    lemma RenderStarts(bodies: seq<string>, k: nat)
      requires Sane() && bodies != []
      ensures Boundary(RenderFrom(bodies, k), 0)
    {
      RenderIsBlocks(bodies, k);
      BlockStarts(k, bodies[0], RenderFrom(bodies[1..], k + 1));
    }

    lemma FirstPieces(bodies: seq<string>, k: nat)
      requires Sane() && bodies != []
      ensures var n := |Pieces(RenderFrom(bodies, k))| - |Pieces(RenderFrom(bodies[1..], k + 1))|;
        n >= 1 && (n == 1 <==> HasNoBoundary(bodies[0]))
    {
      RenderIsBlocks(bodies, k);
      if bodies[1..] != [] { RenderStarts(bodies[1..], k + 1); }
      BlockPieces(k, bodies[0], RenderFrom(bodies[1..], k + 1));
      TotalZero(Marks(bodies[0]));
    }

    /** There are at least as many pieces as bodies, and no more exactly when no body has a boundary. */
    lemma {:induction false} RenderedPieces(bodies: seq<string>, k: nat)
      requires Sane()
      ensures |Pieces(RenderFrom(bodies, k))| >= |bodies|
      ensures |Pieces(RenderFrom(bodies, k))| == |bodies| ==> forall i :: 0 <= i < |bodies| ==> HasNoBoundary(bodies[i])
    {
      if bodies != [] {
        RenderedPieces(bodies[1..], k + 1);
        FirstPieces(bodies, k);
        assert forall i :: 1 <= i < |bodies| ==> bodies[i] == bodies[1..][i - 1];
      }
    }

    /** No piece of a text that starts with a title is blank. */
    lemma {:induction false} NoPieceIsBlank(s: string)
      requires Sane() && (s != "" ==> Boundary(s, 0))
      ensures |SplitBodies(s)| == |Pieces(s)|
      decreases |s|
    {
      if s != "" {
        var b := NextBoundary(s, 1);
        var piece, t := s[..b], s[b..];
        StartIsNotBlank(s, b);
        assert s == piece + t;
        if t != "" { BoundaryInTail(piece, t, 0); }
        NoPieceIsBlank(t);
        assert ([piece] + Pieces(t))[1..] == Pieces(t);
      }
    }

    lemma StartIsNotBlank(s: string, b: nat)
      requires Sane() && s != "" && Boundary(s, 0) && 0 < b <= |s|
      ensures Strip(s[..b]) != ""
    {
      var piece := s[..b];
      assert s[0 + 0] == TITLE[0] && piece[0] == '#';
      assert StripLeft(piece) == piece;
      StripRightPrefix(piece);
    }

    /** Bodies without boundaries that come back are stripped and not empty. */
    lemma {:induction false} ReturnedBodiesArePlain(bodies: seq<string>, k: nat)
      requires Sane() && (forall i :: 0 <= i < |bodies| ==> HasNoBoundary(bodies[i]))
      requires SplitBodies(RenderFrom(bodies, k)) == bodies
      ensures forall i :: 0 <= i < |bodies| ==> IsPlain(bodies[i])
    {
      if bodies != [] {
        var rest := RenderFrom(bodies[1..], k + 1);
        RenderIsBlocks(bodies, k);
        if bodies[1..] != [] { RenderStarts(bodies[1..], k + 1); }
        FirstBodyIsPlain(bodies, k, rest);
        ReturnedBodiesArePlain(bodies[1..], k + 1);
        assert forall i :: 1 <= i < |bodies| ==> bodies[i] == bodies[1..][i - 1];
      }
    }

    lemma FirstBodyIsPlain(bodies: seq<string>, k: nat, rest: string)
      requires Sane() && bodies != [] && HasNoBoundary(bodies[0]) && (rest != "" ==> Boundary(rest, 0))
      requires SplitBodies(Block(k, bodies[0], rest)) == bodies
      ensures IsPlain(bodies[0]) && SplitBodies(rest) == bodies[1..]
    {
      var piece := Header(k) + bodies[0] + Separator(rest);
      PlainBlock(k, bodies[0], rest);
      assert piece[0] == TITLE[0] == '#';
      assert StripLeft(piece) == piece;
      StripRightPrefix(piece);
      assert ([piece] + Pieces(rest))[1..] == Pieces(rest);
      assert bodies == [Body(piece)] + SplitBodies(rest);
      if bodies[0] == "" { BodyOfEmptyBlock(k, rest); }
    }

    /** Rendering and splitting undo each other exactly on lists of plain bodies. */
    lemma RoundTripExactly(bodies: seq<string>)
      requires Sane()
      ensures SplitBodies(Render(bodies)) == bodies <==> forall i :: 0 <= i < |bodies| ==> IsPlain(bodies[i])
    {
      if forall i :: 0 <= i < |bodies| ==> IsPlain(bodies[i]) { PlainBodiesRoundTrip(bodies, 1); }
      if SplitBodies(Render(bodies)) == bodies {
        if bodies != [] { RenderStarts(bodies, 1); }
        NoPieceIsBlank(Render(bodies));
        RenderedPieces(bodies, 1);
        ReturnedBodiesArePlain(bodies, 1);
      }
    }
  }
}

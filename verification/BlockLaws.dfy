/** What the renderer writes and the parser's pieces, headers and margins are, said of the text itself. */
module BlockLaws {
  import opened Wrappers
  import opened MemoryBlocks

  // ---------------------------------------------------------------- numbers and blocks

  predicate AreDigits(s: string) {
    forall i :: 0 <= i < |s| ==> '0' <= s[i] <= '9'
  }

  /** The number a string of digits stands for. */
  function ReadNumber(s: string): nat
    requires AreDigits(s)
  {
    if s == "" then 0 else 10 * ReadNumber(s[..|s| - 1]) + (s[|s| - 1] as nat - '0' as nat)
  }

  /** The digits of a number read back as it, without leading zeros. */
  lemma {:induction false} DecimalMeans(n: nat)
    ensures AreDigits(Decimal(n)) && ReadNumber(Decimal(n)) == n
    ensures Decimal(n)[0] == '0' ==> n == 0 && |Decimal(n)| == 1
  {
    var s := Decimal(n);
    if n < 10 {
      assert s[..0] == "";
    } else {
      DecimalMeans(n / 10);
      assert s[..|s| - 1] == Decimal(n / 10) && s[0] == Decimal(n / 10)[0];
    }
  }

  ghost predicate IsNumbered(block: string, k: nat, digits: string, body: string) {
    && AreDigits(digits) && ReadNumber(digits) == k && digits != "" && digits[0] != '0'
    && block == "## Memory " + digits + "\n" + body
  }

  /** `"\n\n".join(parts)`. */
  function Joined(parts: seq<string>): string {
    if parts == [] then ""
    else if |parts| == 1 then parts[0]
    else parts[0] + "\n\n" + Joined(parts[1..])
  }

  ghost predicate AreBlocks(blocks: seq<string>, bodies: seq<string>, k: nat) {
    |blocks| == |bodies| && forall i: nat :: i < |bodies| ==> IsBlockAt(blocks, bodies, k, i)
  }

  ghost predicate IsBlockAt(blocks: seq<string>, bodies: seq<string>, k: nat, i: nat)
    requires i < |bodies| == |blocks|
  {
    IsBlock(blocks[i], k + i, bodies[i])
  }

  /** A block titled with the number `k`, over its body. */
  ghost predicate IsBlock(block: string, k: nat, body: string) {
    exists digits :: IsNumbered(block, k, digits, body)
  }

  lemma {:induction false} RenderFromMeans(bodies: seq<string>, k: nat) returns (blocks: seq<string>)
    requires k >= 1
    ensures AreBlocks(blocks, bodies, k) && RenderFrom(bodies, k) == Joined(blocks)
  {
    blocks := [];
    if bodies != [] {
      var rest := RenderFromMeans(bodies[1..], k + 1);
      var block := Header(k) + bodies[0];
      DecimalMeans(k);
      assert block == "## Memory " + Decimal(k) + "\n" + bodies[0];
      assert IsNumbered(block, k, Decimal(k), bodies[0]);
      OneMoreBlock(block, rest, bodies, k);
      blocks := [block] + rest;
      assert blocks[1..] == rest;
      assert |bodies| > 1 ==> RenderFrom(bodies, k) == block + "\n\n" + RenderFrom(bodies[1..], k + 1);
    }
  }

  lemma OneMoreBlock(block: string, rest: seq<string>, bodies: seq<string>, k: nat)
    requires bodies != [] && AreBlocks(rest, bodies[1..], k + 1)
    requires IsBlock(block, k, bodies[0])
    ensures AreBlocks([block] + rest, bodies, k)
  {
    var blocks := [block] + rest;
    forall i: nat | i < |bodies| ensures IsBlockAt(blocks, bodies, k, i) {
      if i > 0 { assert IsBlockAt(rest, bodies[1..], k + 1, i - 1); }
    }
  }

  /** Block `i` of a rendered context is titled with the number `i + 1` and holds body `i`. */
  lemma RenderMeans(bodies: seq<string>) returns (blocks: seq<string>)
    ensures AreBlocks(blocks, bodies, 1) && Render(bodies) == Joined(blocks)
  {
    blocks := RenderFromMeans(bodies, 1);
  }

  // ---------------------------------------------------------------- boundaries, margins and headers

  /** A title and its digits stand at `i`, up to `e`, where the word ends. */
  ghost predicate IsTitleTo(a: Alphabet, s: string, i: nat, e: nat) {
    && i + 10 < e <= |s| && s[i..i + 10] == "## Memory "
    && (forall j :: i + 10 <= j < e ==> a.digit(s[j])) && (e == |s| || !a.word(s[e]))
  }

  lemma {:induction false} DigitsEndAt(a: Alphabet, s: string, i: nat, e: nat)
    requires i <= e <= |s| && (forall j :: i <= j < e ==> a.digit(s[j])) && (e < |s| ==> !a.digit(s[e]))
    ensures a.DigitsEnd(s, i) == e
    decreases e - i
  {
    if i < e { DigitsEndAt(a, s, i + 1, e); }
  }

  lemma TitleStands(s: string, i: nat)
    ensures HasAt(s, i, TITLE) <==> i + 10 <= |s| && s[i..i + 10] == "## Memory "
  {
    if i + 10 <= |s| && s[i..i + 10] == TITLE {
      forall j | 0 <= j < 10 ensures TITLE[j] == s[i + j] { assert s[i..i + 10][j] == TITLE[j]; }
    }
  }

  /** The boundary expression, without the functions that match it: a title at a line start. */
  lemma BoundaryMeans(a: Alphabet, s: string, i: nat)
    requires a.Sane()
    ensures a.Boundary(s, i) <==> (i == 0 || (i <= |s| && s[i - 1] == '\n')) && exists e :: IsTitleTo(a, s, i, e)
  {
    TitleStands(s, i);
    if a.Boundary(s, i) { assert IsTitleTo(a, s, i, a.DigitsEnd(s, i + 10)); }
    if e :| IsTitleTo(a, s, i, e) { DigitsEndAt(a, s, i + 10, e); }
  }

  ghost predicate AreSpaces(a: Alphabet, s: string) {
    forall i :: 0 <= i < |s| ==> a.space(s[i])
  }

  lemma {:induction false} StripLeftMeans(a: Alphabet, s: string)
    ensures |a.StripLeft(s)| <= |s| && s[|s| - |a.StripLeft(s)|..] == a.StripLeft(s)
    ensures AreSpaces(a, s[..|s| - |a.StripLeft(s)|])
  {
    if s != "" && a.space(s[0]) {
      StripLeftMeans(a, s[1..]);
      var t := a.StripLeft(s);
      assert s[1..][|s[1..]| - |t|..] == s[|s| - |t|..];
      assert s[..|s| - |t|] == [s[0]] + s[1..][..|s[1..]| - |t|];
    }
  }

  lemma {:induction false} StripRightMeans(a: Alphabet, s: string)
    ensures AreSpaces(a, s[|a.StripRight(s)|..])
  {
    if s != "" && a.space(s[|s| - 1]) {
      var front, t := s[..|s| - 1], a.StripRight(s);
      StripRightMeans(a, front);
      assert s[|t|..] == front[|t|..] + [s[|s| - 1]];
    }
  }

  /** Stripping takes white space off both ends, and what is left has none there. */
  lemma StripMeans(a: Alphabet, s: string) returns (left: string, right: string)
    ensures AreSpaces(a, left) && AreSpaces(a, right) && s == left + a.Strip(s) + right && a.Stripped(a.Strip(s))
  {
    var t := a.StripLeft(s);
    StripLeftMeans(a, s);
    StripRightMeans(a, t);
    left, right := s[..|s| - |t|], t[|a.Strip(s)|..];
    assert t == a.Strip(s) + right;
  }

  /** A title line: the title, a digit, and no line end before its last character. */
  ghost predicate IsTitleLine(a: Alphabet, line: string) {
    && |line| >= 12 && line[..10] == "## Memory " && a.digit(line[10]) && line[|line| - 1] == '\n'
    && forall i :: 10 <= i < |line| - 1 ==> line[i] != '\n'
  }

  lemma {:induction false} LineEndAt(s: string, i: nat, e: nat)
    requires i <= e < |s| && s[e] == '\n' && forall j :: i <= j < e ==> s[j] != '\n'
    ensures LineEnd(s, i) == e
    decreases e - i
  {
    if i < e { LineEndAt(s, i + 1, e); }
  }

  /** A block that starts with a title line loses it. */
  lemma TitleLineIsRemoved(a: Alphabet, line: string, rest: string)
    requires a.Sane() && IsTitleLine(a, line)
    ensures a.WithoutHeader(line + rest) == rest
  {
    var block := line + rest;
    assert block[0..10] == line[..10];
    TitleStands(block, 0);
    NewlineIsNoDigit(a, line);
    LineEndAt(block, 10, |line| - 1);
  }

  lemma NewlineIsNoDigit(a: Alphabet, line: string)
    requires a.Sane() && IsTitleLine(a, line)
    ensures line[10] != '\n'
  {
    assert a.word(line[10]);
  }

  lemma {:induction false} LineEndMeans(s: string, i: nat)
    requires i <= |s|
    ensures forall j :: i <= j < LineEnd(s, i) ==> s[j] != '\n'
    ensures LineEnd(s, i) < |s| ==> s[LineEnd(s, i)] == '\n'
    decreases |s| - i
  {
    if i < |s| && s[i] != '\n' { LineEndMeans(s, i + 1); }
  }

  /** A block that loses something starts with a title line, and loses just that. */
  lemma OnlyTitleLinesAreRemoved(a: Alphabet, block: string) returns (line: string, rest: string)
    requires a.Sane() && a.WithoutHeader(block) != block
    ensures block == line + rest && IsTitleLine(a, line) && a.WithoutHeader(block) == rest
  {
    var end := LineEnd(block, 10);
    TitleStands(block, 0);
    LineEndMeans(block, 10);
    line, rest := block[..end + 1], block[end + 1..];
    assert line[..10] == block[0..10] && a.word(block[10]);
  }

  // ---------------------------------------------------------------- pieces

  /** `cuts` runs from the start of `s` to its end, and the pieces are what lies between neighbours. */
  ghost predicate AreCuts(s: string, pieces: seq<string>, cuts: seq<nat>) {
    && |cuts| == |pieces| + 1 && cuts[0] == 0 && cuts[|pieces|] == |s|
    && forall j: nat :: j < |pieces| ==> IsCutAt(s, pieces, cuts, j)
  }

  ghost predicate IsCutAt(s: string, pieces: seq<string>, cuts: seq<nat>, j: nat)
    requires j < |pieces| && |cuts| == |pieces| + 1
  {
    cuts[j] < cuts[j + 1] <= |s| && pieces[j] == s[cuts[j]..cuts[j + 1]]
  }

  function Shifted(cuts: seq<nat>, b: nat): (r: seq<nat>)
    ensures |r| == |cuts| && forall j :: 0 <= j < |cuts| ==> r[j] == cuts[j] + b
  {
    seq(|cuts|, j requires 0 <= j < |cuts| => cuts[j] + b)
  }

  lemma ShiftedCuts(s: string, b: nat, pieces: seq<string>, cuts: seq<nat>)
    requires 0 < b <= |s| && AreCuts(s[b..], pieces, cuts)
    ensures AreCuts(s, [s[..b]] + pieces, [0] + Shifted(cuts, b))
  {
    var more, all := [s[..b]] + pieces, [0] + Shifted(cuts, b);
    forall j: nat | j < |more| ensures IsCutAt(s, more, all, j) {
      if j > 0 {
        assert IsCutAt(s[b..], pieces, cuts, j - 1);
        assert s[b..][cuts[j - 1]..cuts[j]] == s[cuts[j - 1] + b..cuts[j] + b];
      }
    }
  }

  /** The text is cut exactly at its boundaries after the first position. */
  ghost predicate CutsAreBoundaries(a: Alphabet, s: string, cuts: seq<nat>) {
    forall i: nat :: 0 < i < |s| ==> (i in cuts <==> a.Boundary(s, i))
  }

  lemma MoreBoundaries(a: Alphabet, s: string, b: nat, cuts: seq<nat>)
    requires a.Sane() && s != "" && b == a.NextBoundary(s, 1)
    requires cuts != [] && cuts[0] == 0 && CutsAreBoundaries(a, s[b..], cuts)
    ensures CutsAreBoundaries(a, s, [0] + Shifted(cuts, b))
  {
    var all := [0] + Shifted(cuts, b);
    forall i: nat | 0 < i < |s| ensures i in all <==> a.Boundary(s, i) {
      ShiftedHas(cuts, b, i);
      assert i in all <==> i in Shifted(cuts, b);
      if i >= b { TailBoundary(a, s, b, i); }
      if i == b { assert cuts[0] in cuts; }
    }
  }

  lemma ShiftedHas(cuts: seq<nat>, b: nat, i: nat)
    ensures i in Shifted(cuts, b) <==> i >= b && i - b in cuts
  {
    if i in Shifted(cuts, b) {
      var j :| 0 <= j < |cuts| && Shifted(cuts, b)[j] == i;
      assert cuts[j] == i - b;
    }
    if i >= b && i - b in cuts {
      var j :| 0 <= j < |cuts| && cuts[j] == i - b;
      assert Shifted(cuts, b)[j] == i;
    }
  }

  lemma TailBoundary(a: Alphabet, s: string, b: nat, i: nat)
    requires a.Sane() && 0 < b <= i < |s| && a.Boundary(s, b)
    ensures a.Boundary(s, i) <==> a.Boundary(s[b..], i - b)
  {
    a.BoundaryInTail(s[..b], s[b..], i - b);
    assert s == s[..b] + s[b..];
  }

  /** Splitting cuts a text at every boundary after its first position, and nowhere else. */
  lemma {:induction false} PiecesMean(a: Alphabet, s: string) returns (cuts: seq<nat>)
    requires a.Sane()
    ensures AreCuts(s, a.Pieces(s), cuts) && CutsAreBoundaries(a, s, cuts)
    decreases |s|
  {
    cuts := [0];
    if s != "" {
      var b := a.NextBoundary(s, 1);
      var rest := PiecesMean(a, s[b..]);
      ShiftedCuts(s, b, a.Pieces(s[b..]), rest);
      MoreBoundaries(a, s, b, rest);
      cuts := [0] + Shifted(rest, b);
    }
  }

  type Make = string -> string
  type Test = string -> bool

  /** What is made of the parts that are not blank, in order. */
  ghost predicate AreMadeAt(parts: seq<string>, made: seq<string>, at: seq<nat>, make: Make, blank: Test) {
    && |at| == |made| && (forall i, j :: 0 <= i < j < |at| ==> at[i] < at[j])
    && (forall j :: 0 <= j < |at| ==> at[j] < |parts| && !blank(parts[at[j]]) && made[j] == make(parts[at[j]]))
    && (forall i: nat :: i < |parts| ==> i in at || blank(parts[i]))
  }

  function Made(parts: seq<string>, make: Make, blank: Test): seq<string> {
    if parts == [] then []
    else if blank(parts[0]) then Made(parts[1..], make, blank)
    else [make(parts[0])] + Made(parts[1..], make, blank)
  }

  /** The same for all parts but the first. */
  ghost predicate AreLaterMade(parts: seq<string>, made: seq<string>, at: seq<nat>, make: Make, blank: Test) {
    && |at| == |made| && (forall i, j :: 0 <= i < j < |at| ==> at[i] < at[j])
    && (forall j :: 0 <= j < |at| ==> 0 < at[j] < |parts| && !blank(parts[at[j]]) && made[j] == make(parts[at[j]]))
    && (forall i: nat :: 0 < i < |parts| ==> i in at || blank(parts[i]))
  }

  lemma LaterMade(parts: seq<string>, made: seq<string>, rest: seq<nat>, make: Make, blank: Test)
    requires parts != [] && AreMadeAt(parts[1..], made, rest, make, blank)
    ensures AreLaterMade(parts, made, Shifted(rest, 1), make, blank)
  {
    var later := Shifted(rest, 1);
    forall j | 0 <= j < |rest|
      ensures 0 < later[j] < |parts| && !blank(parts[later[j]]) && made[j] == make(parts[later[j]])
    {
      assert parts[1..][rest[j]] == parts[later[j]];
    }
    forall i: nat | 0 < i < |parts| ensures i in later || blank(parts[i]) {
      assert parts[1..][i - 1] == parts[i];
      ShiftedHas(rest, 1, i);
    }
  }

  lemma FirstMade(parts: seq<string>, made: seq<string>, later: seq<nat>, make: Make, blank: Test)
    requires parts != [] && !blank(parts[0]) && AreLaterMade(parts, made, later, make, blank)
    ensures AreMadeAt(parts, [make(parts[0])] + made, [0] + later, make, blank)
  {
    assert forall i: nat :: i in [0] + later <==> i == 0 || i in later;
  }

  lemma {:induction false} MadeMeans(parts: seq<string>, make: Make, blank: Test) returns (at: seq<nat>)
    ensures AreMadeAt(parts, Made(parts, make, blank), at, make, blank)
  {
    at := [];
    if parts != [] {
      var rest := MadeMeans(parts[1..], make, blank);
      LaterMade(parts, Made(parts[1..], make, blank), rest, make, blank);
      at := Shifted(rest, 1);
      if !blank(parts[0]) {
        FirstMade(parts, Made(parts[1..], make, blank), at, make, blank);
        at := [0] + at;
      }
    }
  }

  function BodyMaker(a: Alphabet): Make {
    piece => a.Body(piece)
  }

  function BlankTest(a: Alphabet): Test {
    piece => a.Strip(piece) == ""
  }

  /** A body is the stripped piece without its title line, stripped again. */
  lemma BodyIs(a: Alphabet, piece: string, inner: string, untitled: string)
    requires inner == a.Strip(piece) && untitled == a.WithoutHeader(inner)
    ensures a.Body(piece) == a.Strip(untitled)
  {
  }

  lemma {:induction false} BodiesAreMade(a: Alphabet, pieces: seq<string>)
    ensures a.BodiesOf(pieces) == Made(pieces, BodyMaker(a), BlankTest(a))
  {
    if pieces != [] {
      BodiesAreMade(a, pieces[1..]);
      assert BodyMaker(a)(pieces[0]) == a.Body(pieces[0]);
    }
  }

  /** The parser returns the bodies of the pieces that are not blank, in order. */
  lemma BodiesMean(a: Alphabet, pieces: seq<string>) returns (at: seq<nat>)
    ensures AreMadeAt(pieces, a.BodiesOf(pieces), at, BodyMaker(a), BlankTest(a))
  {
    BodiesAreMade(a, pieces);
    at := MadeMeans(pieces, BodyMaker(a), BlankTest(a));
  }
}

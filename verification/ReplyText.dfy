/** What the reader of cut-off replies recovers, said of the reply's text. */
module ReplyText {
  import opened Wrappers
  import opened TruncatedRecovery
  import opened ObjectText

  // -------------------------------------------------------------- what the marker and the run are

  ghost predicate IsWhite(r: Reader, v: string) {
    forall j :: 0 <= j < |v| ==> r.space(v[j])
  }

  ghost predicate IsMarkerText(r: Reader, text: string, v: string, w: string) {
    IsWhite(r, v) && IsWhite(r, w) && text == "\"handles\"" + v + ":" + w + "["
  }

  /** The text from `p` to `e` is the label, a colon and an opening bracket, with white space between them. */
  ghost predicate IsMarker(r: Reader, s: string, p: nat, e: nat) {
    p <= e <= |s| && exists v, w :: IsMarkerText(r, s[p..e], v, w)
  }

  lemma {:induction false} SpaceIs(r: Reader, s: string, i: nat, e: nat)
    requires i <= e < |s| && !r.space(s[e]) && forall j :: i <= j < e ==> r.space(s[j])
    ensures r.SkipSpace(s, i) == e
    decreases e - i
  {
    if i < e { SpaceIs(r, s, i + 1, e); }
  }

  /** The marker text ends at `e`, with the colon at `colon`. */
  ghost predicate IsLaidOut(r: Reader, s: string, p: nat, colon: nat, e: nat) {
    && p + 9 <= colon < colon + 2 <= e <= |s| && HasFrom(s, p, "\"handles\"")
    && (forall j :: p + 9 <= j < colon ==> r.space(s[j])) && s[colon] == ':'
    && (forall j :: colon + 1 <= j < e - 1 ==> r.space(s[j])) && s[e - 1] == '['
  }

  lemma LaidOutIsText(r: Reader, s: string, p: nat, colon: nat, e: nat)
    requires IsLaidOut(r, s, p, colon, e)
    ensures IsMarker(r, s, p, e)
  {
    var v, w := s[p + 9..colon], s[colon + 1..e - 1];
    assert s[p..e] == s[p..p + 9] + v + ":" + w + "[";
    assert IsMarkerText(r, s[p..e], v, w);
  }

  lemma TextIsLaidOut(r: Reader, s: string, p: nat, e: nat, v: string, w: string)
    requires p <= e <= |s| && IsMarkerText(r, s[p..e], v, w)
    ensures IsLaidOut(r, s, p, p + 9 + |v|, e)
  {
    var text := "\"handles\"";
    assert s[p..e] == text + (v + (":" + (w + "[")));
    HasParts(s, p, text, v + (":" + (w + "[")));
    HasParts(s, p + 9, v, ":" + (w + "["));
    HasParts(s, p + 9 + |v|, ":", w + "[");
    HasParts(s, p + 9 + |v| + 1, w, "[");
    WhiteFrom(r, s, p + 9, v);
    WhiteFrom(r, s, p + 9 + |v| + 1, w);
    CharFrom(s, p + 9 + |v|, ':');
    CharFrom(s, e - 1, '[');
  }

  lemma CharFrom(s: string, i: nat, c: char)
    requires HasFrom(s, i, [c])
    ensures s[i] == c
  {
    assert s[i..i + 1][0] == [c][0];
  }

  lemma WhiteFrom(r: Reader, s: string, i: nat, v: string)
    requires HasFrom(s, i, v) && IsWhite(r, v)
    ensures forall j :: i <= j < i + |v| ==> r.space(s[j])
  {
    forall j | i <= j < i + |v| ensures r.space(s[j]) { assert s[i..i + |v|][j - i] == v[j - i]; }
  }

  lemma HasFromIsHasAt(s: string, i: nat, word: string)
    ensures HasFrom(s, i, word) <==> HasAt(s, i, word)
  {
    if HasFrom(s, i, word) {
      forall j | 0 <= j < |word| ensures word[j] == s[i + j] { assert s[i..i + |word|][j] == word[j]; }
    }
  }

  lemma MarkerIsText(r: Reader, s: string, p: nat)
    requires r.MarkerEnd(s, p).Some?
    ensures IsMarker(r, s, p, r.MarkerEnd(s, p).value)
  {
    HasFromIsHasAt(s, p, LABEL);
    LaidOutIsText(r, s, p, r.SkipSpace(s, p + |LABEL|), r.MarkerEnd(s, p).value);
  }

  lemma LaidOutIsMarker(r: Reader, s: string, p: nat, colon: nat, e: nat)
    requires r.Sane() && IsLaidOut(r, s, p, colon, e)
    ensures r.MarkerEnd(s, p) == Some(e)
  {
    HasFromIsHasAt(s, p, LABEL);
    SpaceIs(r, s, p + 9, colon);
    SpaceIs(r, s, colon + 1, e - 1);
  }

  lemma TextIsMarker(r: Reader, s: string, p: nat, e: nat)
    requires r.Sane() && IsMarker(r, s, p, e)
    ensures r.MarkerEnd(s, p) == Some(e)
  {
    var v, w :| IsMarkerText(r, s[p..e], v, w);
    TextIsLaidOut(r, s, p, e, v, w);
    LaidOutIsMarker(r, s, p, p + 9 + |v|, e);
  }

  /** The regular expression, without the function that matches it. */
  lemma MarkerMeans(r: Reader, s: string, p: nat, e: nat)
    requires r.Sane()
    ensures r.MarkerEnd(s, p) == Some(e) <==> IsMarker(r, s, p, e)
  {
    if r.MarkerEnd(s, p) == Some(e) { MarkerIsText(r, s, p); }
    if IsMarker(r, s, p, e) { TextIsMarker(r, s, p, e); }
  }

  /** The first marker is the one found. */
  lemma {:induction false} FirstMarkerIsFound(r: Reader, s: string, i: nat, p: nat, e: nat)
    requires r.Sane() && i <= p && IsMarker(r, s, p, e) && forall q: nat, f: nat :: i <= q < p ==> !IsMarker(r, s, q, f)
    ensures r.FindMarker(s, i) == Some(e)
    decreases p - i
  {
    if i == p {
      TextIsMarker(r, s, p, e);
    } else {
      if r.MarkerEnd(s, i).Some? { MarkerIsText(r, s, i); }
      FirstMarkerIsFound(r, s, i + 1, p, e);
    }
  }

  /** A marker is found only where one is, and before it there is none. */
  lemma {:induction false} FoundIsFirstMarker(r: Reader, s: string, i: nat) returns (p: nat)
    requires r.Sane() && i <= |s| && r.FindMarker(s, i).Some?
    ensures i <= p && IsMarker(r, s, p, r.FindMarker(s, i).value) && forall q: nat, f: nat :: i <= q < p ==> !IsMarker(r, s, q, f)
    decreases |s| - i
  {
    if r.MarkerEnd(s, i).Some? {
      MarkerIsText(r, s, i);
      p := i;
    } else {
      p := FoundIsFirstMarker(r, s, i + 1);
      forall f: nat ensures !IsMarker(r, s, i, f) { MarkerMeans(r, s, i, f); }
    }
  }

  /** Blanks, tabs, line ends and commas. */
  predicate IsGap(f: string) {
    forall j :: 0 <= j < |f| ==> f[j] == ' ' || f[j] == '\t' || f[j] == '\r' || f[j] == '\n' || f[j] == ','
  }

  lemma GapIsFiller(f: string)
    ensures IsGap(f) <==> forall j :: 0 <= j < |f| ==> IsFiller(f[j])
  {
    forall c: char ensures IsFiller(c) <==> c == ' ' || c == '\t' || c == '\r' || c == '\n' || c == ',' {
      var filler := " \t\r\n,";
      assert filler[0] == ' ' && filler[1] == '\t' && filler[2] == '\r' && filler[3] == '\n' && filler[4] == ',';
    }
  }

  /** A handle is a printed object that reads as JSON and has the five keys. */
  lemma HandleMeans(r: Reader, pieces: seq<Piece>)
    requires IsPiece(Nested(pieces))
    ensures var text := Text(Nested(pieces));
      r.IsHandle(text) <==> (
        && r.keys(text).Some?
        && {"label", "anchor_entities", "summary", "evidence_ids", "selection_rationale"} <= r.keys(text).value)
  {
    var text := Text(Nested(pieces));
    PrintedObjectsAreClosed("", pieces, "");
    assert "" + text + "" == text;
    NestedParts(text, 0, pieces);
  }

  /** `run` is `handles`, each after its gap, and then the rest, which starts with no further handle. */
  ghost predicate IsRunOf(r: Reader, run: string, fill: seq<string>, handles: seq<string>, more: string) {
    && |fill| == |handles| && (forall k :: 0 <= k < |fill| ==> IsGap(fill[k]))
    && run == r.Written(fill, handles) + more
  }

  lemma RunStep(r: Reader, gap: string, handle: string, run: string, fill: seq<string>, handles: seq<string>, more: string)
    requires IsGap(gap) && IsRunOf(r, run, fill, handles, more)
    ensures IsRunOf(r, gap + handle + run, [gap] + fill, [handle] + handles, more)
  {
    assert ([gap] + fill)[1..] == fill && ([handle] + handles)[1..] == handles;
    assert gap + handle + (r.Written(fill, handles) + more) == (gap + handle + r.Written(fill, handles)) + more;
  }

  /** Nothing is recovered but handles written one after another, and no further handle follows them. */
  lemma {:induction false} RecoveredIsWritten(r: Reader, s: string, i: nat) returns (fill: seq<string>, more: string, stop: nat)
    requires i <= |s|
    ensures IsRunOf(r, s[i..], fill, r.RecoveredFrom(s, i), more)
    ensures stop <= |s| && more == s[stop..] && r.HandleEnd(s, stop).None?
    decreases |s| - i
  {
    if r.HandleEnd(s, i).Some? {
      var start, end := SkipFiller(s, i), r.HandleEnd(s, i).value;
      fill, more, stop := RecoveredIsWritten(r, s, end);
      GapIsFiller(s[i..start]);
      RunStep(r, s[i..start], s[start..end], s[end..], fill, r.RecoveredFrom(s, end), more);
      fill := [s[i..start]] + fill;
      InThree(s, i, start, end);
    } else {
      fill, more, stop := [], s[i..], i;
      NoRun(r, more);
    }
  }

  lemma InThree(s: string, i: nat, j: nat, k: nat)
    requires i <= j <= k <= |s|
    ensures s[i..] == s[i..j] + s[j..k] + s[k..]
  {
  }

  lemma NoRun(r: Reader, run: string)
    ensures IsRunOf(r, run, [], [], run)
  {
    assert r.Written([], []) + run == run;
  }

  /** Where the run stops, no handle stands after the gap. */
  lemma NoHandleFollows(r: Reader, p: string, f: string, handle: string, more: string)
    requires r.HandleEnd(p + f + handle + more, |p|).None? && IsGap(f)
    ensures !r.IsHandle(handle)
  {
    GapIsFiller(f);
    if r.IsHandle(handle) { r.HandleIsFound(p, f, handle, more); }
  }

  /** In a reply cut for length, every handle complete after the first marker is recovered, whatever follows. */
  lemma CompleteRepliesAreRecovered(r: Reader, before: string, v: string, w: string, fill: seq<string>, handles: seq<string>, more: string)
    requires r.Sane() && IsWhite(r, v) && IsWhite(r, w) && |fill| == |handles|
    requires forall k :: 0 <= k < |fill| ==> IsGap(fill[k])
    requires forall k :: 0 <= k < |handles| ==> r.IsHandle(handles[k])
    requires forall q: nat, f: nat :: q < |before| ==> !IsMarker(r, before + "\"handles\"" + v + ":" + w + "[", q, f)
    ensures handles
         <= r.Recovered(before + "\"handles\"" + v + ":" + w + "[" + r.Written(fill, handles) + more, "length")
  {
    var p := before + "\"handles\"" + v + ":" + w + "[";
    MarkerAfter(r, before, v, w);
    FirstMarkerIsFound(r, p, 0, |before|, |p|);
    r.FindExtends(p, r.Written(fill, handles) + more, 0);
    assert p + (r.Written(fill, handles) + more) == p + r.Written(fill, handles) + more;
    forall k | 0 <= k < |fill| ensures forall j :: 0 <= j < |fill[k]| ==> IsFiller(fill[k][j]) { GapIsFiller(fill[k]); }
    r.CompleteHandlesAreRecovered(p, fill, handles, more);
  }

  lemma MarkerAfter(r: Reader, before: string, v: string, w: string)
    requires IsWhite(r, v) && IsWhite(r, w)
    ensures var p := before + "\"handles\"" + v + ":" + w + "["; IsMarker(r, p, |before|, |p|)
  {
    var p := before + "\"handles\"" + v + ":" + w + "[";
    assert p[|before|..|p|] == "\"handles\"" + v + ":" + w + "[";
    assert IsMarkerText(r, p[|before|..|p|], v, w);
  }

  /** A marker starts with a quote, so text without one holds no earlier marker. */
  lemma MarkersStartWithQuotes(r: Reader, s: string, p: nat, e: nat)
    requires IsMarker(r, s, p, e)
    ensures p < |s| && s[p] == '"'
  {
    var v, w :| IsMarkerText(r, s[p..e], v, w);
    assert s[p..e][0] == '"';
  }
}

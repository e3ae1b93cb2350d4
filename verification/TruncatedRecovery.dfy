/** Recovering the complete handles of a reply that was cut off at its length limit. */
module TruncatedRecovery {
  import opened Wrappers

  const LABEL: string := "\"handles\""

  const REQUIRED: set<string> := {"label", "anchor_entities", "summary", "evidence_ids", "selection_rationale"}

  /** Where a scan of an object stands. */
  datatype Scan = Scan(depth: nat, inString: bool, escaped: bool)

  function Scanned(m: Scan, c: char): Scan {
    if m.inString then
      if m.escaped then m.(escaped := false)
      else if c == '\\' then m.(escaped := true)
      else if c == '"' then m.(inString := false)
      else m
    else if c == '"' then m.(inString := true)
    else if c == '{' then m.(depth := m.depth + 1)
    else if c == '}' && m.depth > 0 then m.(depth := m.depth - 1)
    else m
  }

  /** The end of the object whose scan stands at `m` before position `i`, if the text closes it. */
  function ObjectEnd(s: string, i: nat, m: Scan): (end: Option<nat>)
    requires i <= |s|
    ensures end.Some? ==> i < end.value <= |s|
    decreases |s| - i
  {
    if i == |s| then None
    else
      var next := Scanned(m, s[i]);
      if next.depth == 0 && !next.inString then Some(i + 1) else ObjectEnd(s, i + 1, next)
  }

  const OUTSIDE: Scan := Scan(0, false, false)

  predicate IsFiller(c: char) {
    c in " \t\r\n,"
  }

  function SkipFiller(s: string, i: nat): (e: nat)
    requires i <= |s|
    ensures i <= e <= |s| && (e < |s| ==> !IsFiller(s[e]))
    ensures forall j :: i <= j < e ==> IsFiller(s[j])
    decreases |s| - i
  {
    if i < |s| && IsFiller(s[i]) then SkipFiller(s, i + 1) else i
  }

  /** The JSON reader: which characters `\s` matches, and the keys of an object text, or nothing when it is not valid. */
  datatype Reader = Reader(space: char -> bool, keys: string -> Option<set<string>>) {

    /** What the marker needs of white space. */
    predicate Sane() {
      !space('"') && !space(':') && !space('[') && !space('h')
    }

    /** `raw_decode` at an opening brace: the object text up to its closing brace, when that is valid JSON. */
    function Decode(s: string, i: nat): (end: Option<nat>)
      requires i < |s|
      ensures end.Some? ==> i < end.value <= |s| && keys(s[i..end.value]).Some?
    {
      match ObjectEnd(s, i, OUTSIDE)
      case Some(end) => if keys(s[i..end]).Some? then Some(end) else None
      case None => None
    }

    /** A closed object with every required key. */
    predicate IsHandle(text: string) {
      && text != "" && text[0] == '{'
      && ObjectEnd(text, 0, OUTSIDE) == Some(|text|)
      && keys(text).Some? && REQUIRED <= keys(text).value
    }

    /** The end of the handle that starts at `i`, after filler. */
    function HandleEnd(s: string, i: nat): (end: Option<nat>)
      requires i <= |s|
      ensures end.Some? ==> SkipFiller(s, i) < end.value <= |s|
    {
      var start := SkipFiller(s, i);
      if start >= |s| || s[start] != '{' then None
      else
        match Decode(s, start)
        case Some(end) => if REQUIRED <= keys(s[start..end]).value then Some(end) else None
        case None => None
    }

    function RecoveredFrom(s: string, i: nat): seq<string>
      requires i <= |s|
      decreases |s| - i
    {
      match HandleEnd(s, i)
      case Some(end) => [s[SkipFiller(s, i)..end]] + RecoveredFrom(s, end)
      case None => []
    }

    // -------------------------------------------------------------- the marker

    function SkipSpace(s: string, i: nat): (e: nat)
      requires i <= |s|
      ensures i <= e <= |s| && (e < |s| ==> !space(s[e]))
      ensures forall j :: i <= j < e ==> space(s[j])
      decreases |s| - i
    {
      if i < |s| && space(s[i]) then SkipSpace(s, i + 1) else i
    }

    /** The end of a match of `"handles"\s*:\s*\[` that starts at `i`. */
    function MarkerEnd(s: string, i: nat): (end: Option<nat>)
      ensures end.Some? ==> i < end.value <= |s|
    {
      if !HasAt(s, i, LABEL) then None
      else
        var colon := SkipSpace(s, i + |LABEL|);
        if colon == |s| || s[colon] != ':' then None
        else
          var bracket := SkipSpace(s, colon + 1);
          if bracket == |s| || s[bracket] != '[' then None else Some(bracket + 1)
    }

    /** The end of the first match at or after `i`. */
    function FindMarker(s: string, i: nat): (end: Option<nat>)
      requires i <= |s|
      ensures end.Some? ==> end.value <= |s|
      decreases |s| - i
    {
      if MarkerEnd(s, i).Some? then MarkerEnd(s, i)
      else if i == |s| then None
      else FindMarker(s, i + 1)
    }

    /** `_recover_truncated_handles` on the text of a reply. */
    function Recovered(content: string, doneReason: string): seq<string> {
      if doneReason != "length" then []
      else
        match FindMarker(content, 0)
        case Some(end) => RecoveredFrom(content, end)
        case None => []
    }

    /** One round of the recovery loop: the end of the next complete handle, unless the loop stops here. */
    method NextHandle(content: string, position: nat) returns (start: nat, end: Option<nat>)
      requires position <= |content|
      ensures start == SkipFiller(content, position) && end == HandleEnd(content, position)
    {
      start := SkipFiller(content, position);
      if start >= |content| || content[start] != '{' { return start, None; }
      end := Decode(content, start);
      if end.Some? && !(REQUIRED <= keys(content[start..end.value]).value) { end := None; }
    }

    method RecoverTruncated(content: string, doneReason: string) returns (handles: seq<string>)
      ensures handles == Recovered(content, doneReason)
    {
      handles := [];
      if doneReason != "length" { return; }
      var marker := FindMarker(content, 0);
      if marker.None? { return; }
      var position := marker.value;
      while true
        invariant position <= |content|
        invariant RecoveredFrom(content, marker.value) == handles + RecoveredFrom(content, position)
        decreases |content| - position
      {
        var start, end := NextHandle(content, position);
        if end.None? { break; }
        handles := handles + [content[start..end.value]];
        position := end.value;
      }
    }

    // -------------------------------------------------------------- extending the text

    lemma {:induction false} ObjectEndExtends(s: string, more: string, i: nat, m: Scan)
      requires i <= |s| && ObjectEnd(s, i, m).Some?
      ensures ObjectEnd(s + more, i, m) == ObjectEnd(s, i, m)
      decreases |s| - i
    {
      var next := Scanned(m, s[i]);
      assert (s + more)[i] == s[i];
      if !(next.depth == 0 && !next.inString) { ObjectEndExtends(s, more, i + 1, next); }
    }

    lemma {:induction false} FillerExtends(s: string, more: string, i: nat)
      requires i <= |s| && SkipFiller(s, i) < |s|
      ensures SkipFiller(s + more, i) == SkipFiller(s, i)
      decreases |s| - i
    {
      assert (s + more)[i] == s[i];
      if IsFiller(s[i]) { FillerExtends(s, more, i + 1); }
    }

    lemma HandleEndExtends(s: string, more: string, i: nat)
      requires i <= |s| && HandleEnd(s, i).Some?
      ensures HandleEnd(s + more, i) == HandleEnd(s, i) && SkipFiller(s + more, i) == SkipFiller(s, i)
    {
      FillerExtends(s, more, i);
      var start := SkipFiller(s, i);
      ObjectEndExtends(s, more, start, OUTSIDE);
      var end := ObjectEnd(s, start, OUTSIDE).value;
      assert (s + more)[start..end] == s[start..end];
      assert (s + more)[start] == s[start];
    }

    lemma {:induction false} RecoveredExtends(s: string, more: string, i: nat)
      requires i <= |s|
      ensures RecoveredFrom(s, i) <= RecoveredFrom(s + more, i)
      decreases |s| - i
    {
      if HandleEnd(s, i).Some? {
        HandleEndExtends(s, more, i);
        var end := HandleEnd(s, i).value;
        assert (s + more)[SkipFiller(s, i)..end] == s[SkipFiller(s, i)..end];
        RecoveredExtends(s, more, end);
      }
    }

    /** Everything recovered is a closed object with all required keys. */
    lemma {:induction false} OnlyHandlesAreRecovered(s: string, i: nat)
      requires i <= |s|
      ensures forall h :: h in RecoveredFrom(s, i) ==> IsHandle(h)
      decreases |s| - i
    {
      if HandleEnd(s, i).Some? {
        HandleIsClosed(s, i);
        OnlyHandlesAreRecovered(s, HandleEnd(s, i).value);
      }
    }

    lemma HandleIsClosed(s: string, i: nat)
      requires i <= |s| && HandleEnd(s, i).Some?
      ensures IsHandle(s[SkipFiller(s, i)..HandleEnd(s, i).value])
    {
      var start, end := SkipFiller(s, i), HandleEnd(s, i).value;
      ObjectIsClosed(s, start, end);
    }

    lemma ObjectIsClosed(s: string, start: nat, end: nat)
      requires start < end <= |s| && s[start] == '{' && ObjectEnd(s, start, OUTSIDE) == Some(end)
      ensures s[start..end][0] == '{' && ObjectEnd(s[start..end], 0, OUTSIDE) == Some(|s[start..end]|)
    {
      ObjectEndWithin(s, start, end, start, OUTSIDE);
    }

    /** An object scan reads nothing outside the object. */
    lemma {:induction false} ObjectEndWithin(s: string, start: nat, end: nat, i: nat, m: Scan)
      requires start <= i <= |s| && ObjectEnd(s, i, m) == Some(end)
      ensures end <= |s| && ObjectEnd(s[start..end], i - start, m) == Some(end - start)
      decreases |s| - i
    {
      var next := Scanned(m, s[i]);
      assert s[start..end][i - start] == s[i];
      if !(next.depth == 0 && !next.inString) { ObjectEndWithin(s, start, end, i + 1, next); }
    }

    // -------------------------------------------------------------- the marker in a longer text

    lemma {:induction false} SpaceExtends(s: string, more: string, i: nat)
      requires i <= |s| && (SkipSpace(s, i) < |s| || SkipSpace(s + more, i) < |s|)
      ensures SkipSpace(s + more, i) == SkipSpace(s, i)
      decreases |s| - i
    {
      if i < |s| {
        assert (s + more)[i] == s[i];
        if space(s[i]) { SpaceExtends(s, more, i + 1); }
      }
    }

    lemma MarkerExtends(s: string, more: string, i: nat)
      requires MarkerEnd(s, i).Some?
      ensures MarkerEnd(s + more, i) == MarkerEnd(s, i)
    {
      var colon := SkipSpace(s, i + |LABEL|);
      SpaceExtends(s, more, i + |LABEL|);
      SpaceExtends(s, more, colon + 1);
    }

    /** A match that a longer text completes inside the shorter one is a match of the shorter one. */
    lemma MarkerWithin(s: string, more: string, i: nat)
      requires MarkerEnd(s + more, i).Some? && MarkerEnd(s + more, i).value <= |s|
      ensures MarkerEnd(s, i) == MarkerEnd(s + more, i)
    {
      var t := s + more;
      var colon := SkipSpace(t, i + |LABEL|);
      assert HasAt(s, i, LABEL);
      SpaceExtends(s, more, i + |LABEL|);
      SpaceExtends(s, more, colon + 1);
    }

    lemma MarkerShape(t: string, p: nat)
      requires MarkerEnd(t, p).Some?
      ensures var end := MarkerEnd(t, p).value;
        && p + |LABEL| < end && HasAt(t, p, LABEL) && t[end - 1] == '['
        && forall j :: p + |LABEL| <= j < end - 1 ==> space(t[j]) || t[j] == ':'
    {
    }

    lemma LabelStarts(s: string, q: nat)
      ensures HasAt(s, q, LABEL) ==> q + |LABEL| <= |s| && s[q] == '"' && s[q + 1] == 'h'
    {
      assert HasAt(s, q, LABEL) ==> LABEL[0] == s[q + 0] && LABEL[1] == s[q + 1];
    }

    /** Inside a match, after its first quote, no quote is followed by an h. */
    lemma NoLabelInside(t: string, p: nat, j: nat)
      requires Sane() && MarkerEnd(t, p).Some? && p < j && j + 1 < MarkerEnd(t, p).value
      ensures t[j] != '"' || t[j + 1] != 'h'
    {
      MarkerShape(t, p);
      if j < p + |LABEL| { assert LABEL[j - p] == t[p + (j - p)]; }
    }

    /** Where a match is cut off by the end of a text, no other match can start. */
    lemma NoMarkerInsideAnother(s: string, more: string, p: nat, q: nat)
      requires Sane() && p < q && MarkerEnd(s, p).None? && MarkerEnd(s + more, p).Some?
      ensures MarkerEnd(s, q).None?
    {
      var t := s + more;
      if MarkerEnd(t, p).value <= |s| { MarkerWithin(s, more, p); }
      LabelStarts(s, q);
      if q + |LABEL| <= |s| {
        assert t[q] == s[q] && t[q + 1] == s[q + 1];
        NoLabelInside(t, p, q);
      }
    }

    lemma {:induction false} FoundAt(s: string, i: nat) returns (q: nat)
      requires i <= |s| && FindMarker(s, i).Some?
      ensures i <= q <= |s| && MarkerEnd(s, q) == FindMarker(s, i)
      decreases |s| - i
    {
      if MarkerEnd(s, i).Some? { q := i; } else { q := FoundAt(s, i + 1); }
    }

    lemma {:induction false} FindExtends(s: string, more: string, i: nat)
      requires Sane() && i <= |s| && FindMarker(s, i).Some?
      ensures FindMarker(s + more, i) == FindMarker(s, i)
      decreases |s| - i
    {
      if MarkerEnd(s, i).Some? {
        MarkerExtends(s, more, i);
      } else {
        if MarkerEnd(s + more, i).Some? {
          var q := FoundAt(s, i + 1);
          NoMarkerInsideAnother(s, more, i, q);
        }
        FindExtends(s, more, i + 1);
      }
    }

    /** What a shorter reply yields is the beginning of what any continuation of it yields. */
    lemma RecoveryIsPrefixMonotone(s: string, more: string, doneReason: string)
      requires Sane()
      ensures Recovered(s, doneReason) <= Recovered(s + more, doneReason)
    {
      if doneReason == "length" && FindMarker(s, 0).Some? {
        FindExtends(s, more, 0);
        RecoveredExtends(s, more, FindMarker(s, 0).value);
      }
    }

    lemma OnlyHandlesFromReplies(content: string, doneReason: string)
      ensures forall h :: h in Recovered(content, doneReason) ==> IsHandle(h)
      ensures doneReason != "length" ==> Recovered(content, doneReason) == []
    {
      if doneReason == "length" && FindMarker(content, 0).Some? {
        OnlyHandlesAreRecovered(content, FindMarker(content, 0).value);
      }
    }

    // -------------------------------------------------------------- nothing complete is lost

    /** Handles written one after another, each after its filler. */
    function Written(fill: seq<string>, handles: seq<string>): string
      requires |fill| == |handles|
    {
      if handles == [] then "" else fill[0] + handles[0] + Written(fill[1..], handles[1..])
    }

    lemma {:induction false} ObjectEndInContext(p: string, x: string, more: string, i: nat, m: Scan)
      requires i <= |x| && ObjectEnd(x, i, m).Some?
      ensures ObjectEnd(p + x + more, |p| + i, m) == Some(|p| + ObjectEnd(x, i, m).value)
      decreases |x| - i
    {
      var next := Scanned(m, x[i]);
      assert (p + x + more)[|p| + i] == x[i];
      if !(next.depth == 0 && !next.inString) { ObjectEndInContext(p, x, more, i + 1, next); }
    }

    lemma {:induction false} FillerIs(s: string, i: nat, e: nat)
      requires i <= e < |s| && !IsFiller(s[e]) && forall j :: i <= j < e ==> IsFiller(s[j])
      ensures SkipFiller(s, i) == e
      decreases e - i
    {
      if i < e { FillerIs(s, i + 1, e); }
    }

    lemma FillerIsSkipped(p: string, fill: string, rest: string)
      requires rest != "" && rest[0] == '{' && forall j :: 0 <= j < |fill| ==> IsFiller(fill[j])
      ensures SkipFiller(p + fill + rest, |p|) == |p + fill|
    {
      var s, start := p + fill + rest, |p + fill|;
      assert s[start] == rest[0];
      forall j | |p| <= j < start ensures IsFiller(s[j]) { assert s[j] == fill[j - |p|]; }
      FillerIs(s, |p|, start);
    }

    lemma HandleIsDecoded(p: string, handle: string, more: string)
      requires IsHandle(handle)
      ensures var s := p + handle + more;
        && s[|p|] == '{' && s[|p|..|p + handle|] == handle && Decode(s, |p|) == Some(|p + handle|)
    {
      ObjectEndInContext(p, handle, more, 0, OUTSIDE);
      assert (p + handle + more)[|p|..|p + handle|] == handle;
    }

    lemma HandleIsFound(p: string, fill: string, handle: string, more: string)
      requires IsHandle(handle) && forall j :: 0 <= j < |fill| ==> IsFiller(fill[j])
      ensures var s := p + fill + handle + more;
        && SkipFiller(s, |p|) == |p + fill| && HandleEnd(s, |p|) == Some(|p + fill + handle|)
        && s[|p + fill|..|p + fill + handle|] == handle
    {
      assert p + fill + handle + more == p + fill + (handle + more);
      FillerIsSkipped(p, fill, handle + more);
      HandleIsDecoded(p + fill, handle, more);
    }

    /** Every handle complete in the text, in a run of handles from the marker on, is recovered. */
    lemma {:induction false} CompleteHandlesAreRecovered(p: string, fill: seq<string>, handles: seq<string>, more: string)
      requires |fill| == |handles|
      requires forall k :: 0 <= k < |fill| ==> forall j :: 0 <= j < |fill[k]| ==> IsFiller(fill[k][j])
      requires forall k :: 0 <= k < |handles| ==> IsHandle(handles[k])
      ensures handles <= RecoveredFrom(p + Written(fill, handles) + more, |p|)
      decreases |handles|
    {
      if handles != [] {
        var rest := Written(fill[1..], handles[1..]) + more;
        var s, next := p + Written(fill, handles) + more, p + fill[0] + handles[0];
        assert s == p + fill[0] + handles[0] + rest;
        HandleIsFound(p, fill[0], handles[0], rest);
        CompleteHandlesAreRecovered(next, fill[1..], handles[1..], more);
        assert s == next + Written(fill[1..], handles[1..]) + more;
        assert handles == [handles[0]] + handles[1..];
      }
    }
  }
}

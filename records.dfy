/** The record-boundary scan shared by the three parsers: the indices of the
    lines that start with the era's marker, followed by the line count, so that
    record `i` spans lines `[b[i], b[i+1])`. */
module Records {
  import opened Text
  import opened Seqs

  /** Marker of the 1976-2001 flat files. */
  const FlatMarker: string := "PATN"
  /** Marker of the 2002-2004 XML files. */
  const XmlMarkerA: string := "<PATDOC"
  /** Marker of the 2005-2014 XML files. */
  const XmlMarkerB: string := "<us-patent-grant"

  /** Indices below `n` of the lines that start with `marker`, in ascending order. */
  function MarkerLines(content: seq<string>, marker: string, n: nat): (m: seq<nat>)
    requires n <= |content|
    ensures |m| <= n
    ensures forall k :: 0 <= k < |m| ==> m[k] < n && StartsWith(content[m[k]], marker)
  {
    if n == 0 then []
    else MarkerLines(content, marker, n - 1) + (if StartsWith(content[n - 1], marker) then [n - 1] else [])
  }

  /** `patRecs` after the scan: the marker lines, then the sentinel `len(content)`. */
  function Boundaries(content: seq<string>, marker: string): (b: seq<nat>)
    ensures 1 <= |b| <= |content| + 1 && b[|b| - 1] == |content|
  {
    MarkerLines(content, marker, |content|) + [|content|]
  }

  ghost predicate Increasing(b: seq<nat>)
  {
    forall i, j :: 0 <= i < j < |b| ==> b[i] < b[j]
  }

  /** The lines of `content` that start with `marker`. */
  ghost function MarkerSet(content: seq<string>, marker: string): set<nat>
  {
    set j: nat | j < |content| && StartsWith(content[j], marker)
  }

  /** The indices below `n` are increasing and are exactly the marker lines below `n`. */
  lemma {:induction false} MarkerLinesExact(content: seq<string>, marker: string, n: nat)
    requires n <= |content|
    ensures var m := MarkerLines(content, marker, n);
      && Increasing(m)
      && (forall k :: 0 <= k < |m| ==> m[k] < n && StartsWith(content[m[k]], marker))
      && (forall j :: 0 <= j < n && StartsWith(content[j], marker) ==> j in m)
  {
    if n > 0 {
      MarkerLinesExact(content, marker, n - 1);
    }
  }

  /** The boundary list is strictly increasing, ends with the line count, and
      its other entries are exactly the lines that start with the marker. */
  lemma BoundariesExact(content: seq<string>, marker: string)
    ensures var b := Boundaries(content, marker);
      && |b| >= 1 && b[|b| - 1] == |content|
      && Increasing(b)
      && ValidBounds(b, |content|)
      && (forall k :: 0 <= k < |b| - 1 ==> b[k] < |content| && StartsWith(content[b[k]], marker))
      && (forall j :: 0 <= j < |content| && StartsWith(content[j], marker) ==> j in b[..|b| - 1])
  {
    var m := MarkerLines(content, marker, |content|);
    MarkerLinesExact(content, marker, |content|);
    assert Boundaries(content, marker)[..|m|] == m;
  }

  ghost function Elems(m: seq<nat>): set<nat>
  {
    set x | x in m
  }

  lemma {:induction false} IncreasingCard(m: seq<nat>)
    requires Increasing(m)
    ensures |Elems(m)| == |m|
  {
    if m == [] {
      assert Elems(m) == {};
    } else {
      var init, last := m[..|m| - 1], m[|m| - 1];
      IncreasingCard(init);
      var small, large := Elems(init), Elems(m);
      assert large == small + {last};
      assert last !in small;
      assert |large| == |small| + 1;
    }
  }

  /** One record span per marker line: the number of spans processed is the
      number of lines that start with the marker. */
  lemma RecordCount(content: seq<string>, marker: string)
    ensures |Boundaries(content, marker)| - 1 == |MarkerSet(content, marker)|
  {
    var m := MarkerLines(content, marker, |content|);
    MarkerLinesExact(content, marker, |content|);
    assert Elems(m) == MarkerSet(content, marker);
    IncreasingCard(m);
  }

  /** The loop at the start of each parser. */
  method ScanRecords(content: seq<string>, marker: string) returns (recs: seq<nat>)
    ensures recs == Boundaries(content, marker)
    ensures |recs| >= 1 && recs[|recs| - 1] == |content|
    ensures Increasing(recs)
    ensures forall k :: 0 <= k < |recs| - 1 ==> recs[k] < |content| && StartsWith(content[recs[k]], marker)
    ensures forall j :: 0 <= j < |content| && StartsWith(content[j], marker) ==> j in recs[..|recs| - 1]
  {
    recs := [];
    for rec := 0 to |content|
      invariant recs == MarkerLines(content, marker, rec)
    {
      if StartsWith(content[rec], marker) {
        recs := recs + [rec];
      }
    }
    recs := recs + [|content|];
    BoundariesExact(content, marker);
  }

  /** Boundaries that never decrease and stay within `n` lines. */
  ghost predicate ValidBounds(b: seq<nat>, n: nat)
  {
    && (forall i, j :: 0 <= i <= j < |b| ==> b[i] <= b[j])
    && (forall i :: 0 <= i < |b| ==> b[i] <= n)
  }

  /** The record spans `content[b[i]:b[i+1]]`. */
  function Spans(content: seq<string>, b: seq<nat>): seq<seq<string>>
    requires ValidBounds(b, |content|)
  {
    if |b| < 2 then []
    else seq(|b| - 1, i requires 0 <= i < |b| - 1 => content[b[i]..b[i + 1]])
  }

  lemma SpanAt(content: seq<string>, b: seq<nat>, i: nat)
    requires ValidBounds(b, |content|) && i + 1 < |b|
    ensures |Spans(content, b)| == |b| - 1
    ensures Spans(content, b)[i] == content[b[i]..b[i + 1]]
  {
  }

  /** The record spans of a file for `marker`. */
  function RecordsOf(content: seq<string>, marker: string): seq<seq<string>>
  {
    BoundariesExact(content, marker);
    Spans(content, Boundaries(content, marker))
  }

  /** Dropping the last boundary drops the last span. */
  lemma SpansSnoc(content: seq<string>, b: seq<nat>)
    requires ValidBounds(b, |content|) && |b| >= 2
    ensures ValidBounds(b[..|b| - 1], |content|)
    ensures Spans(content, b) == Spans(content, b[..|b| - 1]) + [content[b[|b| - 2]..b[|b| - 1]]]
  {
    var init := b[..|b| - 1];
    assert ValidBounds(init, |content|);
    var s, t := Spans(content, b), Spans(content, init);
    assert |s| == |t| + 1;
    forall i | 0 <= i < |t|
      ensures s[i] == t[i]
    {
      SpanAt(content, b, i);
      SpanAt(content, init, i);
    }
  }

  /** The spans concatenate to the lines from the first boundary to the last. */
  lemma {:induction false} SpansCover(content: seq<string>, b: seq<nat>)
    requires ValidBounds(b, |content|) && |b| >= 1
    ensures Concat(Spans(content, b)) == content[b[0]..b[|b| - 1]]
  {
    if |b| >= 2 {
      var init := b[..|b| - 1];
      SpansSnoc(content, b);
      SpansCover(content, init);
      var k := |b| - 1;
      ConcatSnoc(Spans(content, init), content[b[k - 1]..b[k]]);
      SliceJoin(content, b[0], b[k - 1], b[k]);
    }
  }

  /** The record spans of a file: they concatenate to everything from the first
      marker line on (the lines before it belong to no record), each begins with
      a marker line, and no other line of a span starts with the marker. */
  lemma RecordSpans(content: seq<string>, marker: string)
    ensures var b := Boundaries(content, marker);
      ValidBounds(b, |content|) &&
      var spans := Spans(content, b);
      && |spans| == |MarkerSet(content, marker)|
      && Concat(spans) == content[b[0]..]
      && (forall j :: 0 <= j < b[0] ==> !StartsWith(content[j], marker))
      && (forall i :: 0 <= i < |spans| ==> spans[i] != [] && StartsWith(spans[i][0], marker))
      && (forall i, l :: 0 <= i < |spans| && 0 < l < |spans[i]| ==> !StartsWith(spans[i][l], marker))
  {
    var b := Boundaries(content, marker);
    BoundariesExact(content, marker);
    RecordCount(content, marker);
    SpansCover(content, b);
    SpansStartAtMarkers(content, marker);
    NothingBeforeFirstMarker(content, marker);
  }

  lemma SpansStartAtMarkers(content: seq<string>, marker: string)
    ensures var b := Boundaries(content, marker);
      ValidBounds(b, |content|) &&
      var spans := Spans(content, b);
      && (forall i :: 0 <= i < |spans| ==> spans[i] != [] && StartsWith(spans[i][0], marker))
      && (forall i, l :: 0 <= i < |spans| && 0 < l < |spans[i]| ==> !StartsWith(spans[i][l], marker))
  {
    var b := Boundaries(content, marker);
    BoundariesExact(content, marker);
    var spans := Spans(content, b);
    forall i | 0 <= i < |spans|
      ensures spans[i] != [] && StartsWith(spans[i][0], marker)
    {
      SpanAt(content, b, i);
    }
    forall i, l | 0 <= i < |spans| && 0 < l < |spans[i]|
      ensures !StartsWith(spans[i][l], marker)
    {
      SpanAt(content, b, i);
      NotAMarker(content, marker, b, i, b[i] + l);
      assert spans[i][l] == content[b[i] + l];
    }
  }

  /** A line strictly between two consecutive boundaries is no marker line. */
  lemma NotAMarker(content: seq<string>, marker: string, b: seq<nat>, i: nat, j: nat)
    requires b == Boundaries(content, marker) && i + 1 < |b| && b[i] < j < b[i + 1]
    ensures j < |content| && !StartsWith(content[j], marker)
  {
    BoundariesExact(content, marker);
  }

  lemma NothingBeforeFirstMarker(content: seq<string>, marker: string)
    ensures var b := Boundaries(content, marker);
      b[0] <= |content| && forall j :: 0 <= j < b[0] ==> !StartsWith(content[j], marker)
  {
    BoundariesExact(content, marker);
  }
}

/** `extPatAbs7601`: the parser of the 1976-2001 fixed-width flat files. Each
    record is the span from a `PATN` line to the next; within it the lines tagged
    `WKU` (number), `TTL` (title) and `ABST` (abstract) are read in order, later
    lines overriding earlier ones, and one entry is written per record. */
module FlatFile {
  import opened Results
  import opened Text
  import opened Records
  import opened Patents

  /** The number rule of lines 48-49: a value that starts with '0' loses its
      first and its last character (`num[1:-1]`, empty for the value "0");
      any other value is kept. */
  function NormaliseNumber(v: string): (r: string)
    ensures |v| >= 2 && v[0] == '0' ==> v == "0" + r + [v[|v| - 1]]
    ensures v == "0" ==> r == []
    ensures v == [] || v[0] != '0' ==> r == v
  {
    if |v| > 0 && v[0] == '0' then (if |v| >= 2 then v[1..|v| - 1] else []) else v
  }

  /** The number of a `WKU` line: strip, remove `WKU\s+`, normalise. */
  function NumberOf(line: string): (r: string)
    ensures |r| <= |line|
    ensures AllSpace(line) ==> r == []
  {
    NormaliseNumber(RemoveTag(Strip(line), "WKU"))
  }

  /** The title of a `TTL` line: strip, remove `TTL\s+`, decode ignoring errors. */
  function TitleOf(line: string): (r: string)
    ensures |r| <= |line| && IsAscii(r)
  {
    DecodeIgnore(RemoveTag(Strip(line), "TTL"))
  }

  /** Every line of `lines`, stripped. */
  function StripAll(lines: seq<string>): (r: seq<string>)
    ensures |r| == |lines| && forall k :: 0 <= k < |lines| ==> r[k] == Strip(lines[k])
  {
    seq(|lines|, k requires 0 <= k < |lines| => Strip(lines[k]))
  }

  /** The abstract built from the lines after an `ABST` line: "NULL" when there
      are none; otherwise `PAL\s+` and then `PAR\s+` are removed from the first
      line, every line is stripped, the lines are joined with single spaces and
      the result is decoded ignoring errors. */
  function AbstractOf(body: seq<string>): (r: string)
    ensures body == [] ==> r == Null
    ensures body != [] ==> IsAscii(r)
  {
    if body == [] then Null
    else
      var lines := body[0 := RemoveTag(RemoveTag(body[0], "PAL"), "PAR")];
      DecodeIgnore(JoinSpace(StripAll(lines)))
  }

  /** The value a tagged line gives its field: the number of a `WKU` line ... */
  function NumberRead(line: string, rest: seq<string>): Option<string>
  {
    Some(NumberOf(line))
  }

  /** ... the title of a `TTL` line ... */
  function TitleRead(line: string, rest: seq<string>): Option<string>
  {
    Some(TitleOf(line))
  }

  /** ... and the abstract of an `ABST` line, built from the lines after it. */
  function AbstractRead(line: string, rest: seq<string>): string
  {
    AbstractOf(rest)
  }

  /** One field of the inner loop after its test on line `j` of `pat`: when the
      line starts with `tag`, the field becomes `read(pat[j], pat[j+1:])`. */
  function FieldAfter<V>(v: V, pat: seq<string>, j: nat, tag: string, read: (string, seq<string>) -> V): V
    requires j < |pat|
  {
    if StartsWith(pat[j], tag) then read(pat[j], pat[j + 1..]) else v
  }

  /** One field after the inner loop has run over the first `n` lines of `pat`.
      The three tests of the loop body only read `pat[j]`, so each field evolves
      on its own. */
  function FieldScan<V>(v: V, pat: seq<string>, n: nat, tag: string, read: (string, seq<string>) -> V): V
    requires n <= |pat|
  {
    if n == 0 then v else FieldAfter(FieldScan(v, pat, n - 1, tag, read), pat, n - 1, tag, read)
  }

  /** The last of the first `n` lines of `pat` that starts with `tag`, if any. */
  function LastLine(pat: seq<string>, tag: string, n: nat): (r: Option<nat>)
    requires n <= |pat|
    ensures r.Some? ==> r.value < n && StartsWith(pat[r.value], tag)
    ensures r.Some? ==> forall k :: r.value < k < n ==> !StartsWith(pat[k], tag)
    ensures r.None? ==> forall k :: 0 <= k < n ==> !StartsWith(pat[k], tag)
  {
    if n == 0 then None
    else if StartsWith(pat[n - 1], tag) then Some(n - 1)
    else LastLine(pat, tag, n - 1)
  }

  /** The value read from the last of the first `n` lines of `pat` that
      carries `tag`, or `v` when none does. */
  function FromLastLine<V>(v: V, pat: seq<string>, n: nat, tag: string, read: (string, seq<string>) -> V): V
    requires n <= |pat|
  {
    match LastLine(pat, tag, n)
    case None => v
    case Some(j) => read(pat[j], pat[j + 1..])
  }

  /** The loop keeps the value read from the LAST line tagged `tag`, and the
      value from before the record when no line carries the tag. */
  lemma {:induction false} FieldFromLastLine<V>(v: V, pat: seq<string>, n: nat, tag: string, read: (string, seq<string>) -> V)
    requires n <= |pat|
    ensures FieldScan(v, pat, n, tag, read) == FromLastLine(v, pat, n, tag, read)
  {
    if n > 0 {
      FieldFromLastLine(v, pat, n - 1, tag, read);
    }
  }

  /** `UnboundLocalError` on `title` or on `num` at line 64 (the dictionary
      literal is evaluated before the subscript, so `title` is reported first). */
  datatype ExtractError = TitleUnbound | NumberUnbound

  /** The state the outer loop carries: the dictionary and the last `num` and `title`. */
  datatype Carry = Carry(dict: PatDict, num: Option<string>, title: Option<string>)

  /** The state before the first record. */
  const Start: Carry := Carry(map[], None, None)

  /** How a tagged line sets each field. The loop's control does not depend on
      what the readers compute, so its properties are stated for any readers
      and hold in particular for `Flat`. */
  datatype Readers = Readers(
    number: (string, seq<string>) -> Option<string>,
    title: (string, seq<string>) -> Option<string>,
    abstractText: (string, seq<string>) -> string)

  /** The readers of lines 45-59. */
  const Flat: Readers := Readers(NumberRead, TitleRead, AbstractRead)

  /** One pass of the outer loop body over the record `pat`. */
  function RecordStep(rd: Readers, c: Carry, pat: seq<string>): (r: Result<Carry, ExtractError>)
    ensures r.Success? ==> r.value.num.Some? && r.value.title.Some?
    ensures r.Success? ==> var key := r.value.num.value;
      && r.value.dict.Keys == c.dict.Keys + {key}
      && r.value.dict[key].title == r.value.title.value
      && (forall k :: k in c.dict && k != key ==> r.value.dict[k] == c.dict[k])
  {
    var num := FieldScan(c.num, pat, |pat|, "WKU", rd.number);
    var title := FieldScan(c.title, pat, |pat|, "TTL", rd.title);
    var abstractText := FieldScan(Null, pat, |pat|, "ABST", rd.abstractText);
    if title.None? then Failure(TitleUnbound)
    else if num.None? then Failure(NumberUnbound)
    else Success(Carry(c.dict[num.value := Entry(title.value, abstractText)], num, title))
  }

  /** The outer loop over the first `n` records. */
  function ExtractRecords(rd: Readers, c: Carry, spans: seq<seq<string>>, n: nat): Result<Carry, ExtractError>
    requires n <= |spans|
  {
    if n == 0 then Success(c)
    else match ExtractRecords(rd, c, spans, n - 1)
      case Failure(e) => Failure(e)
      case Success(c') => RecordStep(rd, c', spans[n - 1])
  }

  /** What the loop of `extPatAbs7601` returns or raises for the given readers. */
  function Extract(rd: Readers, content: seq<string>): Result<PatDict, ExtractError>
  {
    var spans := RecordsOf(content, FlatMarker);
    match ExtractRecords(rd, Start, spans, |spans|)
    case Success(c) => Success(c.dict)
    case Failure(e) => Failure(e)
  }

  /** What `extPatAbs7601(content)` returns or raises. */
  function ExtractFlat(content: seq<string>): Result<PatDict, ExtractError>
  {
    Extract(Flat, content)
  }

  /** Once a record raises, the remaining records are never reached. */
  lemma {:induction false} FailureStops(rd: Readers, c: Carry, spans: seq<seq<string>>, i: nat, n: nat)
    requires i <= n <= |spans|
    requires ExtractRecords(rd, c, spans, i).Failure?
    ensures ExtractRecords(rd, c, spans, n) == ExtractRecords(rd, c, spans, i)
  {
    if i < n {
      FailureStops(rd, c, spans, i, n - 1);
    }
  }

  /** The inner loop of `extPatAbs7601` over the lines of one record, starting
      from the `num` and `title` left by the previous record: each line is
      tested against the three tags in turn. */
  method ReadRecord(rd: Readers, pat: seq<string>, num0: Option<string>, title0: Option<string>)
    returns (num: Option<string>, title: Option<string>, abstractText: string)
    ensures num == FieldScan(num0, pat, |pat|, "WKU", rd.number)
    ensures title == FieldScan(title0, pat, |pat|, "TTL", rd.title)
    ensures abstractText == FieldScan(Null, pat, |pat|, "ABST", rd.abstractText)
  {
    num, title, abstractText := num0, title0, Null;
    for j := 0 to |pat|
      invariant num == FieldScan(num0, pat, j, "WKU", rd.number)
      invariant title == FieldScan(title0, pat, j, "TTL", rd.title)
      invariant abstractText == FieldScan(Null, pat, j, "ABST", rd.abstractText)
    {
      if StartsWith(pat[j], "WKU") {
        num := rd.number(pat[j], pat[j + 1..]);
      }
      if StartsWith(pat[j], "TTL") {
        title := rd.title(pat[j], pat[j + 1..]);
      }
      if StartsWith(pat[j], "ABST") {
        abstractText := rd.abstractText(pat[j], pat[j + 1..]);
      }
    }
  }

  /** Record `i` is the slice between consecutive boundaries. */
  lemma SpanOf(content: seq<string>, b: seq<nat>, i: nat)
    requires b == Boundaries(content, FlatMarker) && i + 1 < |b|
    ensures b[i] <= b[i + 1] <= |content|
    ensures |RecordsOf(content, FlatMarker)| == |b| - 1
    ensures content[b[i]..b[i + 1]] == RecordsOf(content, FlatMarker)[i]
  {
    BoundariesExact(content, FlatMarker);
    SpanAt(content, b, i);
  }

  /** The body of `extPatAbs7601` for any readers: scan the record boundaries,
      then run the inner loop on each record and write one entry per record. */
  method ExtractWith(rd: Readers, content: seq<string>) returns (r: Result<PatDict, ExtractError>)
    ensures r == Extract(rd, content)
  {
    var patDict: PatDict := map[];
    var patRecs := ScanRecords(content, FlatMarker);
    ghost var spans := RecordsOf(content, FlatMarker);
    var num: Option<string> := None;
    var title: Option<string> := None;
    for i := 0 to |patRecs| - 1
      invariant ExtractRecords(rd, Start, spans, i) == Success(Carry(patDict, num, title))
    {
      SpanOf(content, patRecs, i);
      var pat := content[patRecs[i]..patRecs[i + 1]];
      var abstractText;
      num, title, abstractText := ReadRecord(rd, pat, num, title);
      if title.None? {
        FailureStops(rd, Start, spans, i + 1, |spans|);
        return Failure(TitleUnbound);
      }
      if num.None? {
        FailureStops(rd, Start, spans, i + 1, |spans|);
        return Failure(NumberUnbound);
      }
      patDict := patDict[num.value := Entry(title.value, abstractText)];
    }
    return Success(patDict);
  }

  /** `extPatAbs7601`. */
  method ExtractFlatFile(content: seq<string>) returns (r: Result<PatDict, ExtractError>)
    ensures r == ExtractFlat(content)
  {
    r := ExtractWith(Flat, content);
  }
}

/** Properties of `extPatAbs7601`. */
module FlatFileFacts {
  import opened Results
  import opened Text
  import opened Records
  import opened Patents
  import opened FlatFile

  /** One record makes exactly one write, `dict[num] = {title, abstract}`,
      keyed by the last `WKU` line's number (or the previous record's), and
      raises when `title` or `num` has never been bound, `title` first. */
  lemma RecordWrite(rd: Readers, c: Carry, pat: seq<string>)
    ensures RecordStep(rd, c, pat) ==
      var num := FromLastLine(c.num, pat, |pat|, "WKU", rd.number);
      var title := FromLastLine(c.title, pat, |pat|, "TTL", rd.title);
      var abstractText := FromLastLine(Null, pat, |pat|, "ABST", rd.abstractText);
      if title.None? then Failure(TitleUnbound)
      else if num.None? then Failure(NumberUnbound)
      else Success(Carry(c.dict[num.value := Entry(title.value, abstractText)], num, title))
  {
    FieldFromLastLine(c.num, pat, |pat|, "WKU", rd.number);
    FieldFromLastLine(c.title, pat, |pat|, "TTL", rd.title);
    FieldFromLastLine(Null, pat, |pat|, "ABST", rd.abstractText);
  }

  /** The abstract is "NULL" when the record has no `ABST` line, or when its
      last `ABST` line is the record's final line. */
  lemma AbstractNull(pat: seq<string>)
    requires LastLine(pat, "ABST", |pat|).None? || LastLine(pat, "ABST", |pat|) == Some(|pat| - 1)
    ensures FromLastLine(Null, pat, |pat|, "ABST", AbstractRead) == Null
  {
    match LastLine(pat, "ABST", |pat|)
    case None =>
    case Some(j) =>
      assert pat[j + 1..] == [];
      assert AbstractRead(pat[j], []) == Null;
  }

  /** Once a number and a title are bound, no later record raises: the
      readers of `extPatAbs7601` always produce a value. */
  lemma BoundFieldsNeverRaise(c: Carry, pat: seq<string>)
    requires c.num.Some? && c.title.Some?
    ensures RecordStep(Flat, c, pat).Success?
  {
    RecordWrite(Flat, c, pat);
  }

  /** A record without `WKU` and `TTL` lines silently reuses the previous
      record's number and title: it overwrites the previous record's entry. */
  lemma StaleFieldsReused(rd: Readers, c: Carry, pat: seq<string>, num: string, title: string)
    requires c.num == Some(num) && c.title == Some(title)
    requires forall k :: 0 <= k < |pat| ==> !StartsWith(pat[k], "WKU") && !StartsWith(pat[k], "TTL")
    ensures RecordStep(rd, c, pat) ==
      Success(Carry(c.dict[num := Entry(title, FromLastLine(Null, pat, |pat|, "ABST", rd.abstractText))], c.num, c.title))
  {
    RecordWrite(rd, c, pat);
  }

  /** The first record of a file raises when it lacks a `WKU` or a `TTL` line:
      there is no earlier value to fall back on. */
  lemma FirstRecordNeedsNumberAndTitle(content: seq<string>)
    requires var spans := RecordsOf(content, FlatMarker);
      |spans| > 0 && (LastLine(spans[0], "WKU", |spans[0]|).None? || LastLine(spans[0], "TTL", |spans[0]|).None?)
    ensures ExtractFlat(content).Failure?
    ensures LastLine(RecordsOf(content, FlatMarker)[0], "TTL", |RecordsOf(content, FlatMarker)[0]|).None? ==>
      ExtractFlat(content) == Failure(TitleUnbound)
  {
    var spans := RecordsOf(content, FlatMarker);
    RecordWrite(Flat, Start, spans[0]);
    assert ExtractRecords(Flat, Start, spans, 1) == RecordStep(Flat, Start, spans[0]);
    FailureStops(Flat, Start, spans, 1, |spans|);
  }

  /** Each record writes one key: the keys only grow, by at most one per record. */
  lemma {:induction false} OneWritePerRecord(rd: Readers, c: Carry, spans: seq<seq<string>>, n: nat)
    requires n <= |spans| && ExtractRecords(rd, c, spans, n).Success?
    ensures var d := ExtractRecords(rd, c, spans, n).value.dict;
      c.dict.Keys <= d.Keys && |d.Keys| <= |c.dict.Keys| + n
  {
    if n > 0 {
      var prev := ExtractRecords(rd, c, spans, n - 1);
      OneWritePerRecord(rd, c, spans, n - 1);
      RecordWrite(rd, prev.value, spans[n - 1]);
      var d0 := prev.value.dict;
      var k := FromLastLine(prev.value.num, spans[n - 1], |spans[n - 1]|, "WKU", rd.number).value;
      var d := ExtractRecords(rd, c, spans, n).value.dict;
      assert d.Keys == d0.Keys + {k};
    }
  }

  /** A tagged line as `readlines` returns it, `tag` + whitespace + `value` +
      trailing whitespace (the newline), where `value` has no surrounding
      whitespace and no further match of `tag\s+`: stripping it and removing
      `tag\s+` leaves exactly `value`. */
  lemma TaggedLine(tag: string, spaces: string, value: string, trail: string)
    requires tag != [] && !IsSpace(tag[0])
    requires spaces != [] && AllSpace(spaces) && AllSpace(trail)
    requires value != [] && !IsSpace(value[0]) && !IsSpace(value[|value| - 1])
    requires NoTagMatch(value, tag)
    ensures RemoveTag(Strip(tag + spaces + value + trail), tag) == value
  {
    StripNewline(tag + spaces + value, trail);
    RemoveTagField(tag, spaces, value);
  }

  /** A line with non-whitespace ends followed by whitespace strips to itself. */
  lemma StripNewline(core: string, trail: string)
    requires core != [] && !IsSpace(core[0]) && !IsSpace(core[|core| - 1])
    requires AllSpace(trail)
    ensures Strip(core + trail) == core
  {
    var none: string := [];
    assert none + core == core;
    StripOf(none, core, trail);
  }

  /** So a `WKU` line yields the normalised number ... */
  lemma NumberOfLine(spaces: string, value: string, trail: string)
    requires spaces != [] && AllSpace(spaces) && AllSpace(trail)
    requires value != [] && !IsSpace(value[0]) && !IsSpace(value[|value| - 1])
    requires NoTagMatch(value, "WKU")
    ensures NumberOf("WKU" + spaces + value + trail) == NormaliseNumber(value)
  {
    TaggedLine("WKU", spaces, value, trail);
  }

  /** ... and a `TTL` line its ASCII title. */
  lemma TitleOfLine(spaces: string, value: string, trail: string)
    requires spaces != [] && AllSpace(spaces) && AllSpace(trail)
    requires value != [] && !IsSpace(value[0]) && !IsSpace(value[|value| - 1])
    requires NoTagMatch(value, "TTL") && IsAscii(value)
    ensures TitleOf("TTL" + spaces + value + trail) == value
  {
    TaggedLine("TTL", spaces, value, trail);
  }

  /** Removing `tag\s+` from `p + rest` keeps `p` when no match starts in `p`. */
  lemma {:induction false} RemoveTagKeep(p: string, rest: string, tag: string)
    requires forall i :: 0 <= i < |p| ==> !TagAt((p + rest)[i..], tag)
    ensures RemoveTag(p + rest, tag) == p + RemoveTag(rest, tag)
  {
    if p != [] {
      var s := p + rest;
      assert s[0..] == s;
      assert s[1..] == p[1..] + rest;
      forall i | 0 <= i < |p| - 1
        ensures !TagAt((p[1..] + rest)[i..], tag)
      {
        assert (p[1..] + rest)[i..] == s[i + 1..];
      }
      RemoveTagKeep(p[1..], rest, tag);
    } else {
      assert p + rest == rest;
    }
  }

  /** `PAR` + whitespace holds no match of `PAL\s+`. */
  lemma ParNotPal(spaces: string, rest: string)
    requires AllSpace(spaces)
    ensures forall i :: 0 <= i < |"PAR" + spaces| ==> !TagAt(("PAR" + spaces + rest)[i..], "PAL")
  {
    var s := "PAR" + spaces + rest;
    forall i | 0 <= i < |"PAR" + spaces|
      ensures !StartsWith(s[i..], "PAL")
    {
      if i == 0 {
        assert s[2] == 'R';
      } else {
        assert s[i..][0] == s[i] != 'P';
      }
    }
  }

  /** The first abstract line `PAL` (or `PAR`) + whitespace + `v` + trailing
      whitespace loses its tag and the whitespace after it. */
  lemma FirstAbstractLine(tag: string, spaces: string, v: string, trail: string)
    requires tag == "PAL" || tag == "PAR"
    requires spaces != [] && AllSpace(spaces)
    requires v != [] && !IsSpace(v[0])
    requires NoTagMatch(v + trail, "PAL") && NoTagMatch(v + trail, "PAR")
    ensures RemoveTag(RemoveTag(tag + spaces + v + trail, "PAL"), "PAR") == v + trail
  {
    var line := tag + spaces + (v + trail);
    assert tag + spaces + v + trail == line;
    if tag == "PAL" {
      RemoveTagField("PAL", spaces, v + trail);
      RemoveTagAbsent(v + trail, "PAR");
    } else {
      ParNotPal(spaces, v + trail);
      RemoveTagKeep("PAR" + spaces, v + trail, "PAL");
      RemoveTagAbsent(v + trail, "PAL");
      assert ("PAR" + spaces) + (v + trail) == line;
      RemoveTagField("PAR", spaces, v + trail);
    }
  }

  /** ... and, once stripped, is just `v`. */
  lemma FirstAbstractStripped(tag: string, spaces: string, v: string, trail: string)
    requires tag == "PAL" || tag == "PAR"
    requires spaces != [] && AllSpace(spaces) && AllSpace(trail)
    requires v != [] && !IsSpace(v[0]) && !IsSpace(v[|v| - 1])
    requires NoTagMatch(v + trail, "PAL") && NoTagMatch(v + trail, "PAR")
    ensures Strip(RemoveTag(RemoveTag(tag + spaces + v + trail, "PAL"), "PAR")) == v
  {
    FirstAbstractLine(tag, spaces, v, trail);
    StripNewline(v, trail);
  }

  /** A line of `lines` is "whitespace + core + whitespace", with the core
      given in `cores`. */
  ghost predicate PaddedLines(lines: seq<string>, leads: seq<string>, cores: seq<string>, trails: seq<string>)
  {
    && |leads| == |cores| == |trails| == |lines|
    && forall i :: 0 <= i < |lines| ==>
      && lines[i] == leads[i] + cores[i] + trails[i]
      && AllSpace(leads[i]) && AllSpace(trails[i])
      && (cores[i] == [] || (!IsSpace(cores[i][0]) && !IsSpace(cores[i][|cores[i]| - 1])))
  }

  /** Every line after the first strips to its core. */
  lemma StripPadded(body: seq<string>, leads: seq<string>, cores: seq<string>, trails: seq<string>)
    requires body != [] && |cores| == |body|
    requires PaddedLines(body[1..], leads, cores[1..], trails)
    ensures forall i :: 1 <= i < |body| ==> Strip(body[i]) == cores[i]
  {
    forall i | 1 <= i < |body|
      ensures Strip(body[i]) == cores[i]
    {
      assert body[1..][i - 1] == body[i] && cores[1..][i - 1] == cores[i];
      StripOf(leads[i - 1], cores[i], trails[i - 1]);
    }
  }

  /** The abstract is the stripped lines joined, once the first line has lost
      its `PAL`/`PAR` tag. */
  lemma AbstractOfStripped(body: seq<string>, cores: seq<string>)
    requires body != [] && |cores| == |body|
    requires Strip(RemoveTag(RemoveTag(body[0], "PAL"), "PAR")) == cores[0]
    requires forall i :: 1 <= i < |body| ==> Strip(body[i]) == cores[i]
    ensures AbstractOf(body) == DecodeIgnore(JoinSpace(cores))
  {
    var lines := body[0 := RemoveTag(RemoveTag(body[0], "PAL"), "PAR")];
    StripAllPointwise(lines, cores);
  }

  /** Lines that strip one by one to `cores` strip together to `cores`. */
  lemma StripAllPointwise(lines: seq<string>, cores: seq<string>)
    requires |lines| == |cores| && forall k :: 0 <= k < |lines| ==> Strip(lines[k]) == cores[k]
    ensures StripAll(lines) == cores
  {
  }

  /** The abstract of a record as read from the file: its first line is
      `PAL` (or `PAR`) + whitespace + text + trailing whitespace, the others are
      text padded with whitespace. The abstract is the texts joined with
      single spaces, non-ASCII bytes dropped; for ASCII texts, just the texts
      joined. */
  lemma AbstractOfLines(tag: string, spaces: string, trail0: string, body: seq<string>,
                        leads: seq<string>, cores: seq<string>, trails: seq<string>)
    requires tag == "PAL" || tag == "PAR"
    requires spaces != [] && AllSpace(spaces) && AllSpace(trail0)
    requires body != [] && |cores| == |body|
    requires body[0] == tag + spaces + cores[0] + trail0
    requires cores[0] != [] && !IsSpace(cores[0][0]) && !IsSpace(cores[0][|cores[0]| - 1])
    requires NoTagMatch(cores[0] + trail0, "PAL") && NoTagMatch(cores[0] + trail0, "PAR")
    requires PaddedLines(body[1..], leads, cores[1..], trails)
    ensures AbstractOf(body) == DecodeIgnore(JoinSpace(cores))
    ensures (forall i :: 0 <= i < |cores| ==> IsAscii(cores[i])) ==> AbstractOf(body) == JoinSpace(cores)
  {
    FirstAbstractStripped(tag, spaces, cores[0], trail0);
    StripPadded(body, leads, cores, trails);
    AbstractOfStripped(body, cores);
    if forall i :: 0 <= i < |cores| ==> IsAscii(cores[i]) {
      JoinSpaceAscii(cores);
    }
  }

  /** A file's dictionary has at most one entry per `PATN` line. */
  lemma FileSize(content: seq<string>)
    requires ExtractFlat(content).Success?
    ensures |ExtractFlat(content).value.Keys| <= |MarkerSet(content, FlatMarker)|
  {
    var spans := RecordsOf(content, FlatMarker);
    RecordSpans(content, FlatMarker);
    OneWritePerRecord(Flat, Start, spans, |spans|);
  }
}

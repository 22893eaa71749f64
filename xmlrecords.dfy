/** `extPatAbs0204` and `extPatAbs0514`: the parsers of the 2002-2004 and
    2005-2014 XML files. Both cut the file into records at their marker line,
    join each record's lines with spaces, hand the text to an XML parser and
    write one entry per record. The parser is not part of this model: what it
    finds in a record is the `parse` parameter. */
module XmlRecords {
  import opened Results
  import opened Text
  import opened Records
  import opened Patents

  /** The exceptions one record can raise: no number element (`AttributeError`
      on `None`), an empty number text (`IndexError` on `[0]`), no title
      element (`AttributeError`). */
  datatype XmlError = NumberMissing | NumberEmpty | TitleMissing

  /** What the XML parser finds in one record: the texts of the number, title
      and abstract elements, each absent or present. */
  datatype Lookup = Lookup(number: Option<string>, title: Option<string>, abstractText: Option<string>)

  /** The number rule of lines 87-90 and 121-122: one leading '0' is dropped,
      nothing else; an empty text raises. */
  function StripLeadingZero(text: string): (r: Result<string, XmlError>)
    ensures text == [] <==> r == Failure(NumberEmpty)
    ensures text != [] && text[0] == '0' ==> r.Success? && text == "0" + r.value
    ensures text != [] && text[0] != '0' ==> r == Success(text)
  {
    if text == [] then Failure(NumberEmpty)
    else if text[0] == '0' then Success(text[1..])
    else Success(text)
  }

  /** The key and entry a record writes, or what it raises, given what the
      parser found in it. The number is looked up first, then the title; a
      missing abstract is "NULL". */
  function EntryOf(doc: Lookup): (r: Result<(string, Entry), XmlError>)
    ensures r.Failure? <==> doc.number.None? || doc.number.value == [] || doc.title.None?
    ensures doc.number.None? ==> r == Failure(NumberMissing)
    ensures doc.number == Some([]) ==> r == Failure(NumberEmpty)
    ensures doc.number.Some? && doc.number.value != [] && doc.title.None? ==> r == Failure(TitleMissing)
    ensures r.Success? ==> StripLeadingZero(doc.number.value) == Success(r.value.0)
    ensures r.Success? ==> r.value.1.title == doc.title.value
    ensures r.Success? ==> r.value.1.abstractText == if doc.abstractText.Some? then doc.abstractText.value else Null
  {
    if doc.number.None? then Failure(NumberMissing)
    else match StripLeadingZero(doc.number.value)
      case Failure(e) => Failure(e)
      case Success(num) =>
        if doc.title.None? then Failure(TitleMissing)
        else
          var abstractText := if doc.abstractText.Some? then doc.abstractText.value else Null;
          Success((num, Entry(doc.title.value, abstractText)))
  }

  /** The same for the record `pat`: its lines are joined with spaces and parsed. */
  function RecordEntry(parse: string -> Lookup, pat: seq<string>): Result<(string, Entry), XmlError>
  {
    EntryOf(parse(JoinSpace(pat)))
  }

  /** Lines 87-97 (and 119-129) for one parsed record. */
  method ReadXmlRecord(soup: Lookup) returns (r: Result<(string, Entry), XmlError>)
    ensures r == EntryOf(soup)
  {
    if soup.number.None? {
      return Failure(NumberMissing);
    }
    var text := soup.number.value;
    if text == [] {
      return Failure(NumberEmpty);
    }
    var num := text;
    if text[0] == '0' {
      num := text[1..];
    }
    if soup.title.None? {
      return Failure(TitleMissing);
    }
    var abstractText := Null;
    if soup.abstractText.Some? {
      abstractText := soup.abstractText.value;
    }
    return Success((num, Entry(soup.title.value, abstractText)));
  }

  /** What each record of `spans` writes or raises. */
  function RecordEntries(parse: string -> Lookup, spans: seq<seq<string>>): (es: seq<Result<(string, Entry), XmlError>>)
    ensures |es| == |spans|
  {
    if spans == [] then []
    else RecordEntries(parse, spans[..|spans| - 1]) + [RecordEntry(parse, spans[|spans| - 1])]
  }

  lemma {:induction false} RecordEntryAt(parse: string -> Lookup, spans: seq<seq<string>>, i: nat)
    requires i < |spans|
    ensures RecordEntries(parse, spans)[i] == RecordEntry(parse, spans[i])
  {
    if i < |spans| - 1 {
      RecordEntryAt(parse, spans[..|spans| - 1], i);
    }
  }

  /** The loop over the first `n` records: each writes its entry, overriding
      any earlier entry with the same number, until one raises. */
  function WriteEntries(es: seq<Result<(string, Entry), XmlError>>, n: nat): (r: Result<PatDict, XmlError>)
    requires n <= |es|
    ensures r.Success? ==> |r.value.Keys| <= n
    ensures r.Success? ==> forall i :: 0 <= i < n ==> es[i].Success? && es[i].value.0 in r.value
  {
    if n == 0 then Success(map[])
    else match WriteEntries(es, n - 1)
      case Failure(e) => Failure(e)
      case Success(d) =>
        match es[n - 1]
        case Failure(e) => Failure(e)
        case Success(kv) => Success(d[kv.0 := kv.1])
  }

  /** What the parser for `marker` returns or raises on the lines `content`. */
  function ExtractXml(content: seq<string>, marker: string, parse: string -> Lookup): Result<PatDict, XmlError>
  {
    var spans := RecordsOf(content, marker);
    WriteEntries(RecordEntries(parse, spans), |spans|)
  }

  /** Once a record raises, the remaining records are never reached. */
  lemma {:induction false} XmlFailureStops(es: seq<Result<(string, Entry), XmlError>>, i: nat, n: nat)
    requires i <= n <= |es|
    requires WriteEntries(es, i).Failure?
    ensures WriteEntries(es, n) == WriteEntries(es, i)
  {
    if i < n {
      XmlFailureStops(es, i, n - 1);
    }
  }

  /** Record `i` is the slice between consecutive boundaries, and what it
      writes is read from those lines joined with spaces. */
  lemma XmlEntryAt(content: seq<string>, marker: string, parse: string -> Lookup, b: seq<nat>, i: nat)
    requires b == Boundaries(content, marker) && i + 1 < |b|
    ensures b[i] <= b[i + 1] <= |content|
    ensures |RecordEntries(parse, RecordsOf(content, marker))| == |b| - 1
    ensures RecordEntries(parse, RecordsOf(content, marker))[i] == EntryOf(parse(JoinSpace(content[b[i]..b[i + 1]])))
  {
    BoundariesExact(content, marker);
    SpanAt(content, b, i);
    RecordEntryAt(parse, RecordsOf(content, marker), i);
  }

  /** The body shared by `extPatAbs0204` (marker `<PATDOC`) and `extPatAbs0514`
      (marker `<us-patent-grant`). */
  method ExtractXmlFile(content: seq<string>, marker: string, parse: string -> Lookup)
    returns (r: Result<PatDict, XmlError>)
    ensures r == ExtractXml(content, marker, parse)
  {
    var patDict: PatDict := map[];
    var patRecs := ScanRecords(content, marker);
    ghost var es := RecordEntries(parse, RecordsOf(content, marker));
    assert |es| == |patRecs| - 1 by {
      BoundariesExact(content, marker);
    }
    for i := 0 to |patRecs| - 1
      invariant WriteEntries(es, i) == Success(patDict)
    {
      XmlEntryAt(content, marker, parse, patRecs, i);
      var patXml := JoinSpace(content[patRecs[i]..patRecs[i + 1]]);
      var entry := ReadXmlRecord(parse(patXml));
      if entry.Failure? {
        XmlFailureStops(es, i + 1, |es|);
        return Failure(entry.error);
      }
      patDict := patDict[entry.value.0 := entry.value.1];
    }
    return Success(patDict);
  }
}

/** Properties of the XML parsers. */
module XmlRecordsFacts {
  import opened Results
  import opened Records
  import opened Patents
  import opened FlatFile
  import opened XmlRecords

  /** The single-entry dictionary a record writes (empty if it raises). */
  function EntryMap(e: Result<(string, Entry), XmlError>): PatDict
  {
    match e
    case Success(kv) => map[kv.0 := kv.1]
    case Failure(_) => map[]
  }

  function EntryMaps(es: seq<Result<(string, Entry), XmlError>>, n: nat): (r: seq<PatDict>)
    requires n <= |es|
    ensures |r| == n && forall i :: 0 <= i < n ==> r[i] == EntryMap(es[i])
  {
    if n == 0 then [] else EntryMaps(es, n - 1) + [EntryMap(es[n - 1])]
  }

  /** The file's dictionary is only returned when no record raises. */
  lemma {:induction false} XmlFoldAllSucceed(es: seq<Result<(string, Entry), XmlError>>, n: nat)
    requires n <= |es| && WriteEntries(es, n).Success?
    ensures forall i :: 0 <= i < n ==> es[i].Success?
  {
    if n > 0 {
      XmlFoldAllSucceed(es, n - 1);
    }
  }

  /** When no record raises, the dictionary is the left fold of one-entry
      updates: a later record with the same number overrides an earlier one,
      and no value is carried from one record to the next. */
  lemma {:induction false} XmlFoldIsMerge(es: seq<Result<(string, Entry), XmlError>>, n: nat)
    requires n <= |es| && WriteEntries(es, n).Success?
    ensures WriteEntries(es, n).value == Merge(map[], EntryMaps(es, n))
  {
    if n > 0 {
      XmlFoldIsMerge(es, n - 1);
      var kv := es[n - 1].value;
      var d := WriteEntries(es, n - 1).value;
      var ds := EntryMaps(es, n);
      assert ds[..n - 1] == EntryMaps(es, n - 1);
      assert ds[n - 1] == map[kv.0 := kv.1];
      calc {
        WriteEntries(es, n).value;
        d[kv.0 := kv.1];
        { UpdateIsMerge(d, kv.0, kv.1); }
        d + ds[n - 1];
        Merge(map[], ds);
      }
    }
  }

  /** So every record's number is a key of the file's dictionary, and the
      file's keys are exactly the records' numbers. */
  lemma XmlKeysAreNumbers(content: seq<string>, marker: string, parse: string -> Lookup, k: string)
    requires ExtractXml(content, marker, parse).Success?
    ensures var spans := RecordsOf(content, marker);
      && (forall i :: 0 <= i < |spans| ==> RecordEntry(parse, spans[i]).Success?)
      && (k in ExtractXml(content, marker, parse).value <==>
          exists i :: 0 <= i < |spans| && RecordEntry(parse, spans[i]).value.0 == k)
  {
    var spans := RecordsOf(content, marker);
    var es := RecordEntries(parse, spans);
    XmlFoldAllSucceed(es, |es|);
    XmlFoldIsMerge(es, |es|);
    var ds := EntryMaps(es, |es|);
    MergeKeys(map[], ds, k);
    forall i | 0 <= i < |es|
      ensures es[i] == RecordEntry(parse, spans[i]) && (k in ds[i] <==> es[i].value.0 == k)
    {
      RecordEntryAt(parse, spans, i);
    }
  }

  /** The flat-file rule drops the check digit as well as the leading zero;
      the XML rule drops only the zero. */
  lemma NumberRulesDiffer(v: string)
    requires |v| >= 2 && v[0] == '0'
    ensures StripLeadingZero(v) == Success(NormaliseNumber(v) + [v[|v| - 1]])
  {
    assert v[1..|v| - 1] + [v[|v| - 1]] == v[1..];
  }
}

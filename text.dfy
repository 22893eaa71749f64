/** The Python 2 string primitives the parsers rely on, over byte strings
    (a `char` below 256 stands for one byte of a line read from a data file). */
module Text {

  /** Python 2 `str.isspace` for one byte, which is also what `\s` matches in a
      byte-string regular expression: space, tab, newline, carriage return,
      vertical tab and form feed. */
  predicate IsSpace(c: char)
  {
    c == ' ' || c == '\t' || c == '\n' || c == '\r' || c == '\U{B}' || c == '\U{C}'
  }

  /** `s.startswith(prefix)` */
  predicate StartsWith(s: string, prefix: string)
  {
    |prefix| <= |s| && s[..|prefix|] == prefix
  }

  /** `s.lstrip()`: the longest suffix of `s` that does not begin with whitespace. */
  function TrimLeft(s: string): (r: string)
    ensures |r| <= |s| && r == s[|s| - |r|..]
    ensures forall k :: 0 <= k < |s| - |r| ==> IsSpace(s[k])
    ensures r == [] || !IsSpace(r[0])
  {
    if s == [] || !IsSpace(s[0]) then s else TrimLeft(s[1..])
  }

  /** `s.rstrip()`: the longest prefix of `s` that does not end with whitespace. */
  function TrimRight(s: string): (r: string)
    ensures |r| <= |s| && r == s[..|r|]
    ensures forall k :: |r| <= k < |s| ==> IsSpace(s[k])
    ensures r == [] || !IsSpace(r[|r| - 1])
  {
    if s == [] || !IsSpace(s[|s| - 1]) then s else TrimRight(s[..|s| - 1])
  }

  /** Every character of `s` is whitespace. */
  predicate AllSpace(s: string)
  {
    forall k :: 0 <= k < |s| ==> IsSpace(s[k])
  }

  /** `s.strip()`: `s` without its leading and trailing whitespace (`StripOf`
      below). The result is empty exactly when `s` is all whitespace, and
      otherwise begins and ends with a non-whitespace character of `s`. */
  function Strip(s: string): (r: string)
    ensures |r| <= |s|
    ensures r == [] || (!IsSpace(r[0]) && !IsSpace(r[|r| - 1]))
    ensures r == [] <==> forall k :: 0 <= k < |s| ==> IsSpace(s[k])
  {
    var t := TrimRight(s);
    var r := TrimLeft(t);
    assert r != [] ==> r[|r| - 1] == t[|t| - 1];
    assert t != [] ==> r != [];
    r
  }

  /** Stripping a string that has no surrounding whitespace leaves it unchanged ... */
  lemma StripUnchanged(s: string)
    requires s == [] || (!IsSpace(s[0]) && !IsSpace(s[|s| - 1]))
    ensures Strip(s) == s
  {
    if s != [] {
      assert TrimRight(s) == s;
      assert TrimLeft(s) == s;
    }
  }

  /** `rstrip` removes exactly a trailing run of whitespace ... */
  lemma {:induction false} TrimRightOf(core: string, trail: string)
    requires AllSpace(trail)
    requires core == [] || !IsSpace(core[|core| - 1])
    ensures TrimRight(core + trail) == core
  {
    if trail != [] {
      var init := trail[..|trail| - 1];
      assert (core + trail)[..|core + trail| - 1] == core + init;
      TrimRightOf(core, init);
    } else {
      assert core + trail == core;
    }
  }

  /** ... and `lstrip` exactly a leading one. */
  lemma {:induction false} TrimLeftOf(lead: string, core: string)
    requires AllSpace(lead)
    requires core == [] || !IsSpace(core[0])
    ensures TrimLeft(lead + core) == core
  {
    if lead != [] {
      assert (lead + core)[1..] == lead[1..] + core;
      TrimLeftOf(lead[1..], core);
    } else {
      assert lead + core == core;
    }
  }

  /** A line made of whitespace, a core with no whitespace at its ends, and
      whitespace again (such as the newline `readlines` keeps) strips to the
      core: every string has this shape, so this is the value of `strip`. */
  lemma StripOf(lead: string, core: string, trail: string)
    requires AllSpace(lead) && AllSpace(trail)
    requires core == [] || (!IsSpace(core[0]) && !IsSpace(core[|core| - 1]))
    ensures Strip(lead + core + trail) == core
  {
    if core == [] {
      assert AllSpace(lead + core + trail);
    } else {
      assert lead + core + trail == (lead + core) + trail;
      TrimRightOf(lead + core, trail);
      TrimLeftOf(lead, core);
    }
  }

  /** ... so `strip` is idempotent. */
  lemma StripIdempotent(s: string)
    ensures Strip(Strip(s)) == Strip(s)
  {
    StripUnchanged(Strip(s));
  }

  /** Length of the run of whitespace at the start of `s`. */
  function SpaceRun(s: string): (n: nat)
    ensures n <= |s|
    ensures forall k :: 0 <= k < n ==> IsSpace(s[k])
    ensures n == |s| || !IsSpace(s[n])
  {
    if s == [] || !IsSpace(s[0]) then 0 else 1 + SpaceRun(s[1..])
  }

  /** True when the regular expression `tag\s+` matches at the start of `s`. */
  predicate TagAt(s: string, tag: string)
  {
    StartsWith(s, tag) && SpaceRun(s[|tag|..]) > 0
  }

  /** `re.sub(tag + '\s+', '', s)`: scanning left to right, every occurrence of
      `tag` followed by one or more whitespace characters is removed together
      with the whole whitespace run (the quantifier is greedy); the text that
      remains is not scanned again. */
  function RemoveTag(s: string, tag: string): (r: string)
    ensures |r| <= |s|
    decreases |s|
  {
    if s == [] then []
    else if TagAt(s, tag) then RemoveTag(s[|tag| + SpaceRun(s[|tag|..])..], tag)
    else [s[0]] + RemoveTag(s[1..], tag)
  }

  /** `s` contains no match of `tag\s+` at any position. */
  predicate NoTagMatch(s: string, tag: string)
  {
    forall i :: 0 <= i < |s| ==> !TagAt(s[i..], tag)
  }

  /** Removing a tag that never matches leaves the string unchanged. */
  lemma {:induction false} RemoveTagAbsent(s: string, tag: string)
    requires NoTagMatch(s, tag)
    ensures RemoveTag(s, tag) == s
  {
    if s != [] {
      assert s[0..] == s;
      assert !TagAt(s, tag);
      assert forall i :: 0 <= i < |s| - 1 ==> s[1..][i..] == s[i + 1..];
      RemoveTagAbsent(s[1..], tag);
    }
  }

  /** A field line `tag` + whitespace + `value`, where `value` neither begins with
      whitespace nor contains another match, gives back exactly `value`. */
  lemma RemoveTagField(tag: string, spaces: string, value: string)
    requires spaces != [] && forall k :: 0 <= k < |spaces| ==> IsSpace(spaces[k])
    requires value == [] || !IsSpace(value[0])
    requires NoTagMatch(value, tag)
    ensures RemoveTag(tag + spaces + value, tag) == value
  {
    var s := tag + spaces + value;
    assert s[..|tag|] == tag;
    assert s[|tag|..] == spaces + value;
    SpaceRunPrefix(spaces, value);
    assert s[|tag| + |spaces|..] == value;
    if s == [] {
    } else {
      assert TagAt(s, tag);
    }
    RemoveTagAbsent(value, tag);
  }

  lemma {:induction false} SpaceRunPrefix(spaces: string, rest: string)
    requires forall k :: 0 <= k < |spaces| ==> IsSpace(spaces[k])
    requires rest == [] || !IsSpace(rest[0])
    ensures SpaceRun(spaces + rest) == |spaces|
  {
    if spaces != [] {
      assert (spaces + rest)[1..] == spaces[1..] + rest;
      SpaceRunPrefix(spaces[1..], rest);
    } else {
      assert spaces + rest == rest;
    }
  }

  /** `' '.join(parts)` */
  function JoinSpace(parts: seq<string>): (r: string)
    ensures parts == [] ==> r == []
    ensures |parts| == 1 ==> r == parts[0]
  {
    if parts == [] then []
    else if |parts| == 1 then parts[0]
    else JoinSpace(parts[..|parts| - 1]) + " " + parts[|parts| - 1]
  }

  /** Joining two nonempty lists is joining each, with one space between. */
  lemma {:induction false} JoinSpaceAppend(a: seq<string>, b: seq<string>)
    requires a != [] && b != []
    ensures JoinSpace(a + b) == JoinSpace(a) + " " + JoinSpace(b)
  {
    var ab := a + b;
    if |b| == 1 {
      assert ab[..|ab| - 1] == a;
    } else {
      var init, last := b[..|b| - 1], b[|b| - 1];
      assert ab[..|ab| - 1] == a + init;
      assert ab[|ab| - 1] == last;
      JoinSpaceAppend(a, init);
      assert JoinSpace(b) == JoinSpace(init) + " " + last;
    }
  }

  /** Every character is ASCII. */
  predicate IsAscii(s: string)
  {
    forall k :: 0 <= k < |s| ==> s[k] < 128 as char
  }

  /** Joining ASCII strings with spaces gives an ASCII string. */
  lemma {:induction false} JoinSpaceAscii(parts: seq<string>)
    requires forall i :: 0 <= i < |parts| ==> IsAscii(parts[i])
    ensures IsAscii(JoinSpace(parts))
  {
    if |parts| > 1 {
      JoinSpaceAscii(parts[..|parts| - 1]);
    }
  }

  /** `unicode(s, errors = 'ignore')` under Python 2's default ASCII codec:
      every byte that is not ASCII is dropped, the rest are kept in order. */
  function DecodeIgnore(s: string): (r: string)
    ensures |r| <= |s|
    ensures IsAscii(r)
    ensures IsAscii(s) ==> r == s
  {
    if s == [] then []
    else if s[0] < 128 as char then [s[0]] + DecodeIgnore(s[1..])
    else DecodeIgnore(s[1..])
  }
}

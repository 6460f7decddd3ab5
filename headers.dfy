/** `parseHeadersInput`: free-form `Name: Value` text, one header per line,
    turned into a map from lower-cased header name to value. The
    split/trim/filter pipeline is a pure function; the reduce step that
    updates the accumulator object is the loop of `ParseHeadersInput`, and
    `Step`/`Fold` are the functions that specify it. */
module Headers {
  import opened JsStrings

  type HeaderMap = map<string, string>

  /** Every line trimmed, in place. */
  function TrimEach(lines: seq<string>): (r: seq<string>)
    ensures |r| == |lines|
    ensures forall i :: 0 <= i < |lines| ==> r[i] == Trim(lines[i])
  {
    seq(|lines|, i requires 0 <= i < |lines| => Trim(lines[i]))
  }

  /** The blank-line filter: the non-empty lines, in order. */
  function DropEmpty(lines: seq<string>): (r: seq<string>)
    ensures |r| <= |lines|
    ensures forall i :: 0 <= i < |r| ==> r[i] != "" && r[i] in lines
    ensures (forall i :: 0 <= i < |lines| ==> lines[i] == "") ==> r == []
    decreases |lines|
  {
    if lines == [] then []
    else (if lines[0] == "" then [] else [lines[0]]) + DropEmpty(lines[1..])
  }

  /** The header lines of the raw text: split on "\n", trimmed, blank ones
      dropped. Every line that remains is non-empty and trimmed. */
  function HeaderLines(raw: string): (lines: seq<string>)
    ensures forall i :: 0 <= i < |lines| ==> lines[i] != "" && IsTrimmed(lines[i])
  {
    DropEmpty(TrimEach(Split(raw, '\n')))
  }

  /** The filter on one line: kept exactly when it is non-empty. */
  lemma DropEmptyOne(x: string)
    ensures DropEmpty([x]) == if x == "" then [] else [x]
  {
    assert [x][1..] == [];
  }

  /** Every non-empty line survives the filter. */
  lemma {:induction false} DropEmptyKeepsNonEmpty(lines: seq<string>)
    ensures forall i :: 0 <= i < |lines| && lines[i] != "" ==> lines[i] in DropEmpty(lines)
    decreases |lines|
  {
    if lines != [] {
      DropEmptyKeepsNonEmpty(lines[1..]);
      forall i | 1 <= i < |lines| ensures lines[i] == lines[1..][i - 1] { }
    }
  }

  /** Text with no line break is one header line, its trimmed self, unless it
      is blank. */
  lemma HeaderLinesOfLine(l: string)
    requires forall i :: 0 <= i < |l| ==> l[i] != '\n'
    ensures HeaderLines(l) == if Trim(l) == "" then [] else [Trim(l)]
  {
    IndexOfAbsent(l, '\n');
    assert Split(l, '\n') == [l];
    assert TrimEach([l]) == [Trim(l)];
    DropEmptyOne(Trim(l));
  }

  /** The name a line is filed under: the text before its first `:`,
      trimmed and lower-cased. Without a `:`, `indexOf` gives -1 and
      `substring(0, -1)` is empty, so the line is filed under "". */
  function KeyOf(line: string): string {
    ToLower(Trim(Substring(line, 0, IndexOf(line, ':'))))
  }

  /** The value of a line: the text after its first `:`, trimmed; the whole
      line, trimmed, when there is no `:`. */
  function ValueOf(line: string): string {
    Trim(Substring(line, IndexOf(line, ':') + 1, |line|))
  }

  /** One header line, cut into the name it is filed under and its value. */
  datatype Header = Header(name: string, value: string)

  /** The header of one line: `KeyOf` and `ValueOf` together. */
  function ParseLine(line: string): Header {
    Header(KeyOf(line), ValueOf(line))
  }

  /** A line's header name is trimmed and lower-case, its value trimmed. */
  lemma ParseLineNormalized(line: string)
    ensures IsTrimmed(ParseLine(line).name) && IsLowerCase(ParseLine(line).name)
    ensures IsTrimmed(ParseLine(line).value)
  {
    ToLowerKeepsTrimmed(Trim(Substring(line, 0, IndexOf(line, ':'))));
  }

  function ParseLines(lines: seq<string>): seq<Header> {
    seq(|lines|, i requires 0 <= i < |lines| => ParseLine(lines[i]))
  }

  /** The body of the reduce callback: file the header's value under its
      name, joining with ", " when the name already holds a truthy
      (non-empty) value, and overwriting otherwise. Exactly one key is
      touched. */
  function Step(obj: HeaderMap, h: Header): (r: HeaderMap)
    ensures r.Keys == obj.Keys + {h.name}
    ensures forall k :: k in obj && k != h.name ==> r[k] == obj[k]
  {
    if h.name in obj && obj[h.name] != "" then obj[h.name := obj[h.name] + ", " + h.value]
    else obj[h.name := h.value]
  }

  /** The names of a sequence of headers. */
  function Names(hs: seq<Header>): set<string> {
    set i | 0 <= i < |hs| :: hs[i].name
  }

  /** The reduce over the header lines: a left fold of `Step` from the empty
      object. */
  function Fold(hs: seq<Header>): HeaderMap
    decreases |hs|
  {
    if hs == [] then map[] else Step(Fold(hs[..|hs| - 1]), hs[|hs| - 1])
  }

  /** Folding one more header applies one more step. */
  lemma FoldAppend(hs: seq<Header>, h: Header)
    ensures Fold(hs + [h]) == Step(Fold(hs), h)
  {
    assert (hs + [h])[..|hs|] == hs;
  }

  /** Folding a prefix one header longer applies one more step. */
  lemma FoldPrefix(hs: seq<Header>, i: nat)
    requires i < |hs|
    ensures Fold(hs[..i + 1]) == Step(Fold(hs[..i]), hs[i])
  {
    assert hs[..i + 1][..i] == hs[..i];
  }

  /** The keys of the fold are exactly the names of the headers. */
  lemma {:induction false} FoldKeys(hs: seq<Header>)
    ensures Fold(hs).Keys == Names(hs)
    decreases |hs|
  {
    if hs != [] {
      var init := hs[..|hs| - 1];
      FoldKeys(init);
      assert Names(hs) == Names(init) + {hs[|hs| - 1].name} by {
        forall i | 0 <= i < |init| ensures init[i] == hs[i] { }
      }
    }
  }

  lemma NamesNormalized(lines: seq<string>)
    ensures forall k :: k in Names(ParseLines(lines)) ==> IsTrimmed(k) && IsLowerCase(k)
  {
    forall i | 0 <= i < |lines| ensures IsTrimmed(ParseLines(lines)[i].name) && IsLowerCase(ParseLines(lines)[i].name) {
      ParseLineNormalized(lines[i]);
    }
  }

  /** What `parseHeadersInput` returns for the raw input text. */
  function ParseHeaders(raw: string): HeaderMap {
    Fold(ParseLines(HeaderLines(raw)))
  }

  /** Every key of the result is trimmed and lower-case. */
  lemma KeysNormalized(raw: string)
    ensures forall k :: k in ParseHeaders(raw) ==> IsTrimmed(k) && IsLowerCase(k)
  {
    NamesNormalized(HeaderLines(raw));
    FoldKeys(ParseLines(HeaderLines(raw)));
  }

  /** The first half of the reduce callback: find the first `:` and cut the
      line into its trimmed, lower-cased name and its trimmed value. */
  method CutLine(line: string) returns (key: string, value: string)
    ensures Header(key, value) == ParseLine(line)
  {
    var separator := IndexOf(line, ':');
    key := ToLower(Trim(Substring(line, 0, separator)));
    value := Trim(Substring(line, separator + 1, |line|));
  }

  /** The reduce callback as written: cut the line, then file the value
      under the key, joining onto a truthy stored value. */
  method AddLine(obj: HeaderMap, line: string) returns (r: HeaderMap)
    ensures r == Step(obj, ParseLine(line))
  {
    var key, value := CutLine(line);
    if key in obj && obj[key] != "" {
      r := obj[key := obj[key] + ", " + value];
    } else {
      r := obj[key := value];
    }
  }

  /** `parseHeadersInput` as written: the pipeline, then the reduce as a loop
      that feeds every line to the callback, updating the accumulator map. */
  method ParseHeadersInput(raw: string) returns (headers: HeaderMap)
    ensures headers == ParseHeaders(raw)
    ensures forall k :: k in headers ==> IsTrimmed(k) && IsLowerCase(k)
  {
    var lines := HeaderLines(raw);
    ghost var parsed := ParseLines(lines);
    headers := map[];
    var i := 0;
    while i < |lines|
      invariant 0 <= i <= |lines|
      invariant headers == Fold(parsed[..i])
    {
      headers := AddLine(headers, lines[i]);
      FoldPrefix(parsed, i);
      i := i + 1;
    }
    assert parsed[..|parsed|] == parsed;
    KeysNormalized(raw);
  }

  // ---------------------------------------------------------------------
  // Reference: the stored value of a key, from the values filed under it.

  /** The values of the headers filed under `k`, in the order they appear. */
  function ValuesFor(hs: seq<Header>, k: string): seq<string>
    decreases |hs|
  {
    if hs == [] then []
    else
      var last := hs[|hs| - 1];
      ValuesFor(hs[..|hs| - 1], k) + (if last.name == k then [last.value] else [])
  }

  /** The values from the first non-empty one on: earlier empty values are
      overwritten, not joined, because "" is falsy. */
  function SkipLeadingEmpty(vs: seq<string>): (r: seq<string>)
    ensures r != [] ==> r[0] != ""
    decreases |vs|
  {
    if vs == [] then []
    else if vs[0] == "" then SkipLeadingEmpty(vs[1..])
    else vs
  }

  lemma {:induction false} SkipLeadingEmptyAppend(vs: seq<string>, v: string)
    ensures SkipLeadingEmpty(vs + [v]) ==
      if SkipLeadingEmpty(vs) == [] then (if v == "" then [] else [v])
      else SkipLeadingEmpty(vs) + [v]
    decreases |vs|
  {
    if vs != [] {
      assert (vs + [v])[1..] == vs[1..] + [v];
      SkipLeadingEmptyAppend(vs[1..], v);
    }
  }

  /** The stored value of every key, stated without the fold: a key is
      present exactly when some header is filed under it, and its value is
      the values filed under it, in first-seen order, from the first
      non-empty one on, joined with ", ". */
  lemma {:induction false} FoldMergesValues(hs: seq<Header>, k: string)
    ensures k in Fold(hs) <==> ValuesFor(hs, k) != []
    ensures k in Fold(hs) ==>
      Fold(hs)[k] == JoinWith(SkipLeadingEmpty(ValuesFor(hs, k)), ", ")
    decreases |hs|
  {
    if hs != [] {
      var init := hs[..|hs| - 1];
      var h := hs[|hs| - 1];
      var prev := Fold(init);
      FoldMergesValues(init, k);
      assert Fold(hs) == Step(prev, h);
      if h.name == k {
        var vs := ValuesFor(init, k);
        var v := h.value;
        assert ValuesFor(hs, k) == vs + [v];
        SkipLeadingEmptyAppend(vs, v);
        var skipped := SkipLeadingEmpty(vs);
        if skipped == [] {
          assert k in prev ==> prev[k] == "";
          assert Fold(hs)[k] == v;
        } else {
          assert |JoinWith(skipped, ", ")| >= |skipped[0]| > 0;
          assert vs != [];
          JoinWithAppend(skipped, v, ", ");
        }
      } else {
        assert ValuesFor(hs, k) == ValuesFor(init, k);
      }
    }
  }

  /** `FoldMergesValues` for the text given to `parseHeadersInput`. */
  lemma ParseMergesValues(raw: string, k: string)
    ensures var hs := ParseLines(HeaderLines(raw));
      && (k in ParseHeaders(raw) <==> ValuesFor(hs, k) != [])
      && (k in ParseHeaders(raw) ==>
            ParseHeaders(raw)[k] == JoinWith(SkipLeadingEmpty(ValuesFor(hs, k)), ", "))
  {
    FoldMergesValues(ParseLines(HeaderLines(raw)), k);
  }

  /** A repeated key whose stored value is non-empty gets the new value
      appended after ", "; no other key changes. */
  lemma RepeatedKeyJoins(hs: seq<Header>, h: Header)
    requires h.name in Fold(hs) && Fold(hs)[h.name] != ""
    ensures Fold(hs + [h]) == Fold(hs)[h.name := Fold(hs)[h.name] + ", " + h.value]
  {
    FoldAppend(hs, h);
  }

  /** A name not yet in the result is added with the line's value; no other
      key changes. */
  lemma NewKeyStored(hs: seq<Header>, h: Header)
    requires h.name !in Fold(hs)
    ensures Fold(hs + [h]) == Fold(hs)[h.name := h.value]
  {
    FoldAppend(hs, h);
  }

  /** A repeated key whose stored value is empty is overwritten by the new
      value instead of joined; no other key changes. */
  lemma EmptyStoredValueReplaced(hs: seq<Header>, h: Header)
    requires h.name in Fold(hs) && Fold(hs)[h.name] == ""
    ensures Fold(hs + [h]) == Fold(hs)[h.name := h.value]
  {
    FoldAppend(hs, h);
  }

  // ---------------------------------------------------------------------
  // Splitting one line.

  /** A line cut at its first `:`, at position `k`. */
  lemma CutAtFirstColon(line: string, k: nat)
    requires k < |line| && line[k] == ':'
    requires forall j :: 0 <= j < k ==> line[j] != ':'
    ensures ParseLine(line) == Header(ToLower(Trim(line[..k])), Trim(line[k + 1..]))
  {
    IndexOfFirst(line, ':', k);
    SubstringInRange(line, 0, k);
    assert line[0..k] == line[..k];
    SubstringInRange(line, k + 1, |line|);
    assert line[k + 1..|line|] == line[k + 1..];
  }

  /** A line splits at its first `:` only: the key is the trimmed,
      lower-cased name before it, and the value is the trimmed rest, which
      may itself hold further colons. */
  lemma SplitsAtFirstColon(name: string, value: string)
    requires forall i :: 0 <= i < |name| ==> name[i] != ':'
    ensures ParseLine(name + ":" + value) == Header(ToLower(Trim(name)), Trim(value))
  {
    var line := name + ":" + value;
    forall i | 0 <= i < |name| ensures line[i] != ':' { assert line[i] == name[i]; }
    assert line[|name|] == ':';
    CutAtFirstColon(line, |name|);
    assert line[..|name|] == name;
    assert line[|name| + 1..] == value;
  }

  /** A line with no `:` is filed under the empty key with the whole
      trimmed line as its value. */
  lemma NoColonLine(line: string)
    requires forall i :: 0 <= i < |line| ==> line[i] != ':'
    ensures ParseLine(line) == Header("", Trim(line))
  {
    IndexOfAbsent(line, ':');
    SubstringBelowZero(line, 0, -1);
    SubstringInRange(line, 0, |line|);
    assert line[0..|line|] == line;
  }

  /** Names that differ only in letter case are filed under one key. */
  lemma NamesIgnoreCase(name1: string, value1: string, name2: string, value2: string)
    requires forall i :: 0 <= i < |name1| ==> name1[i] != ':'
    requires forall i :: 0 <= i < |name2| ==> name2[i] != ':'
    requires ToLower(name1) == ToLower(name2)
    ensures ParseLine(name1 + ":" + value1).name == ParseLine(name2 + ":" + value2).name
  {
    SplitsAtFirstColon(name1, value1);
    SplitsAtFirstColon(name2, value2);
    TrimToLower(name1);
    TrimToLower(name2);
  }

  // ---------------------------------------------------------------------
  // Blank lines.

  lemma {:induction false} DropEmptyAppend(a: seq<string>, b: seq<string>)
    ensures DropEmpty(a + b) == DropEmpty(a) + DropEmpty(b)
    decreases |a|
  {
    if a != [] {
      var head := if a[0] == "" then [] else [a[0]];
      assert (a + b)[0] == a[0];
      assert (a + b)[1..] == a[1..] + b;
      assert DropEmpty(a + b) == head + DropEmpty(a[1..] + b);
      DropEmptyAppend(a[1..], b);
      assert head + (DropEmpty(a[1..]) + DropEmpty(b)) == (head + DropEmpty(a[1..])) + DropEmpty(b);
    } else {
      assert a + b == b;
    }
  }

  /** The header lines of text joined by "\n" are the header lines of each
      side. */
  lemma HeaderLinesAround(a: string, b: string)
    ensures HeaderLines(a + "\n" + b) == HeaderLines(a) + HeaderLines(b)
  {
    SplitAround(a, '\n', b);
    var pa, pb := Split(a, '\n'), Split(b, '\n');
    assert TrimEach(pa + pb) == TrimEach(pa) + TrimEach(pb);
    DropEmptyAppend(TrimEach(pa), TrimEach(pb));
  }

  /** Text that is white space only (blank lines included) has no header
      lines. */
  lemma WhiteSpaceHasNoHeaderLines(w: string)
    requires AllSpace(w)
    ensures HeaderLines(w) == []
  {
    var pieces := Split(w, '\n');
    SplitAllSpace(w, '\n');
    forall i | 0 <= i < |pieces| ensures Trim(pieces[i]) == "" {
      TrimEmptyIffAllSpace(pieces[i]);
    }
  }

  /** Empty or white-space-only input yields the empty map. */
  lemma WhiteSpaceInputIsEmpty(w: string)
    requires AllSpace(w)
    ensures ParseHeaders(w) == map[]
  {
    WhiteSpaceHasNoHeaderLines(w);
  }

  /** A run of blank or white-space-only lines between two pieces of text
      contributes no entry: removing it leaves the result unchanged. */
  lemma BlankLinesIgnored(a: string, w: string, b: string)
    requires AllSpace(w)
    ensures ParseHeaders(a + "\n" + w + "\n" + b) == ParseHeaders(a + "\n" + b)
  {
    var aw := a + "\n" + w;
    HeaderLinesAround(aw, b);
    HeaderLinesAround(a, w);
    HeaderLinesAround(a, b);
    WhiteSpaceHasNoHeaderLines(w);
    assert HeaderLines(a) + [] == HeaderLines(a);
    assert HeaderLines(aw + "\n" + b) == HeaderLines(a + "\n" + b);
  }

  /** A single non-blank line without a line break gives a map with exactly
      one entry: its name and its value. */
  lemma OneLineInput(l: string)
    requires forall i :: 0 <= i < |l| ==> l[i] != '\n'
    requires Trim(l) != ""
    ensures ParseHeaders(l) == map[ParseLine(Trim(l)).name := ParseLine(Trim(l)).value]
  {
    HeaderLinesOfLine(l);
    var hs := ParseLines([Trim(l)]);
    assert hs == [] + [ParseLine(Trim(l))];
    FoldAppend([], ParseLine(Trim(l)));
  }
}

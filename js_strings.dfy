/** The JavaScript string built-ins that the header parser relies on:
    `trim`, `toLowerCase`, `indexOf`, `substring`, `split` and `join`,
    each stated over `seq<char>` with the meaning ECMAScript gives it. */
module JsStrings {

  /** The ECMAScript WhiteSpace and LineTerminator code points: exactly
      what `String.prototype.trim` strips from both ends. */
  const Spaces: set<char> := {
    '\t', '\U{000B}', '\U{000C}', ' ', '\U{00A0}', '\U{FEFF}', '\U{1680}',
    '\U{2000}', '\U{2001}', '\U{2002}', '\U{2003}', '\U{2004}', '\U{2005}',
    '\U{2006}', '\U{2007}', '\U{2008}', '\U{2009}', '\U{200A}',
    '\U{202F}', '\U{205F}', '\U{3000}',
    '\n', '\r', '\U{2028}', '\U{2029}'
  }

  predicate IsSpace(c: char) {
    c in Spaces
  }

  /** A string with no white space at either end. */
  predicate IsTrimmed(s: string) {
    s == [] || (!IsSpace(s[0]) && !IsSpace(s[|s| - 1]))
  }

  predicate AllSpace(s: string) {
    forall i :: 0 <= i < |s| ==> IsSpace(s[i])
  }

  /** Leading white space removed: the result does not start with white
      space. */
  function TrimStart(s: string): (r: string)
    ensures |r| <= |s|
    ensures r == [] || !IsSpace(r[0])
    decreases |s|
  {
    if |s| > 0 && IsSpace(s[0]) then TrimStart(s[1..]) else s
  }

  /** Trailing white space removed: the result does not end with white
      space. */
  function TrimEnd(s: string): (r: string)
    ensures |r| <= |s|
    ensures r == [] || !IsSpace(r[|r| - 1])
    decreases |s|
  {
    if |s| > 0 && IsSpace(s[|s| - 1]) then TrimEnd(s[..|s| - 1]) else s
  }

  /** `TrimStart` keeps a suffix of its input and drops white space only. */
  lemma {:induction false} TrimStartDropsSpace(s: string)
    ensures TrimStart(s) == s[|s| - |TrimStart(s)|..]
    ensures AllSpace(s[..|s| - |TrimStart(s)|])
    decreases |s|
  {
    if |s| > 0 && IsSpace(s[0]) {
      TrimStartDropsSpace(s[1..]);
      var n := |s| - |TrimStart(s)|;
      assert s[1..][n - 1..] == s[n..];
      forall i | 0 <= i < n ensures IsSpace(s[i]) {
        if i > 0 { assert s[i] == s[1..][..n - 1][i - 1]; }
      }
    }
  }

  /** `TrimEnd` keeps a prefix of its input and drops white space only. */
  lemma {:induction false} TrimEndDropsSpace(s: string)
    ensures TrimEnd(s) == s[..|TrimEnd(s)|]
    ensures AllSpace(s[|TrimEnd(s)|..])
    decreases |s|
  {
    if |s| > 0 && IsSpace(s[|s| - 1]) {
      var init := s[..|s| - 1];
      TrimEndDropsSpace(init);
      var n := |TrimEnd(s)|;
      assert init[..n] == s[..n];
      forall i | n <= i < |s| ensures IsSpace(s[i]) {
        if i < |s| - 1 { assert s[i] == init[n..][i - n]; }
      }
    }
  }

  /** `TrimEnd` keeps the first character of a string that starts with a
      non-space. */
  lemma {:induction false} TrimEndKeepsFirst(s: string)
    ensures s != [] && !IsSpace(s[0]) ==> TrimEnd(s) != [] && TrimEnd(s)[0] == s[0]
    decreases |s|
  {
    if |s| > 1 && IsSpace(s[|s| - 1]) {
      TrimEndKeepsFirst(s[..|s| - 1]);
    }
  }

  /** `s.trim()`: no white space at either end. */
  function Trim(s: string): (r: string)
    ensures IsTrimmed(r)
    ensures |r| <= |s|
  {
    TrimEndKeepsFirst(TrimStart(s));
    TrimEnd(TrimStart(s))
  }

  /** Trimming keeps a contiguous piece of the text. */
  lemma TrimIsPiece(s: string)
    ensures exists i, j :: 0 <= i <= j <= |s| && Trim(s) == s[i..j]
  {
    var t := TrimStart(s);
    TrimStartDropsSpace(s);
    TrimEndDropsSpace(t);
    var i := |s| - |t|;
    var j := i + |Trim(s)|;
    assert Trim(s) == s[i..j];
  }

  /** Trimming gives the empty string exactly when the text is all white
      space. */
  lemma TrimEmptyIffAllSpace(s: string)
    ensures Trim(s) == [] <==> AllSpace(s)
  {
    var t := TrimStart(s);
    if Trim(s) == [] {
      TrimStartDropsSpace(s);
      TrimEndKeepsFirst(t);
      assert s[..|s| - |t|] == s;
    }
    if AllSpace(s) { TrimStartAllSpace(s); }
  }

  lemma {:induction false} TrimStartAllSpace(s: string)
    requires AllSpace(s)
    ensures TrimStart(s) == []
    decreases |s|
  {
    if |s| > 0 { TrimStartAllSpace(s[1..]); }
  }

  lemma TrimStartOfTrimmed(s: string)
    requires IsTrimmed(s)
    ensures TrimStart(s) == s
  {
  }

  lemma TrimEndOfTrimmed(s: string)
    requires IsTrimmed(s)
    ensures TrimEnd(s) == s
  {
  }

  /** Trimming is idempotent: a trimmed string is its own trim. */
  lemma TrimOfTrimmed(s: string)
    requires IsTrimmed(s)
    ensures Trim(s) == s
  {
    TrimStartOfTrimmed(s);
    TrimEndOfTrimmed(s);
  }

  predicate IsUpper(c: char) {
    'A' <= c <= 'Z'
  }

  /** `toLowerCase` on one character, restricted to ASCII letters. */
  function LowerChar(c: char): (d: char)
    ensures IsUpper(c) ==> d as int == c as int + 32
    ensures !IsUpper(c) ==> d == c
    ensures !IsUpper(d)
  {
    if IsUpper(c) then (c as int + 32) as char else c
  }

  /** No white space character is an upper-case letter, so lower-casing
      neither creates nor removes white space. */
  lemma LowerCharKeepsSpace(c: char)
    ensures IsSpace(LowerChar(c)) == IsSpace(c)
  {
  }

  predicate IsLowerCase(s: string) {
    forall i :: 0 <= i < |s| ==> !IsUpper(s[i])
  }

  /** `s.toLowerCase()` over ASCII: same length, every upper-case letter
      replaced by its lower-case form, every other character kept. */
  function ToLower(s: string): (r: string)
    ensures |r| == |s| && IsLowerCase(r)
    ensures forall i :: 0 <= i < |s| ==> r[i] == LowerChar(s[i])
    decreases |s|
  {
    if s == [] then [] else [LowerChar(s[0])] + ToLower(s[1..])
  }

  /** Lower-casing never moves white space, so it keeps a trimmed string trimmed. */
  lemma ToLowerKeepsTrimmed(s: string)
    requires IsTrimmed(s)
    ensures IsTrimmed(ToLower(s))
  {
    if s != [] {
      LowerCharKeepsSpace(s[0]);
      LowerCharKeepsSpace(s[|s| - 1]);
    }
  }

  lemma {:induction false} TrimStartToLower(s: string)
    ensures TrimStart(ToLower(s)) == ToLower(TrimStart(s))
    decreases |s|
  {
    if |s| > 0 {
      LowerCharKeepsSpace(s[0]);
    }
    if |s| > 0 && IsSpace(s[0]) {
      assert ToLower(s)[1..] == ToLower(s[1..]);
      TrimStartToLower(s[1..]);
    }
  }

  lemma {:induction false} TrimEndToLower(s: string)
    ensures TrimEnd(ToLower(s)) == ToLower(TrimEnd(s))
    decreases |s|
  {
    if |s| > 0 {
      LowerCharKeepsSpace(s[|s| - 1]);
    }
    if |s| > 0 && IsSpace(s[|s| - 1]) {
      assert ToLower(s)[..|s| - 1] == ToLower(s[..|s| - 1]);
      TrimEndToLower(s[..|s| - 1]);
    }
  }

  /** Trimming and lower-casing commute. */
  lemma TrimToLower(s: string)
    ensures Trim(ToLower(s)) == ToLower(Trim(s))
  {
    TrimStartToLower(s);
    TrimEndToLower(TrimStart(s));
  }

  /** `s.indexOf(c)`: the position of the first occurrence of `c`, or -1
      when there is none. */
  function IndexOf(s: string, c: char): (r: int)
    ensures -1 <= r < |s|
    ensures r >= 0 ==> s[r] == c
    decreases |s|
  {
    if |s| == 0 then -1
    else if s[0] == c then 0
    else
      var j := IndexOf(s[1..], c);
      if j < 0 then -1 else j + 1
  }

  /** No occurrence comes before the one found, and none at all when -1 is
      returned. */
  lemma {:induction false} IndexOfNoEarlier(s: string, c: char)
    ensures forall j :: 0 <= j < |s| && (IndexOf(s, c) < 0 || j < IndexOf(s, c)) ==> s[j] != c
    decreases |s|
  {
    if |s| > 0 && s[0] != c {
      IndexOfNoEarlier(s[1..], c);
      forall j | 1 <= j < |s| ensures s[j] == s[1..][j - 1] { }
    }
  }

  /** A string without `c` gives -1. */
  lemma {:induction false} IndexOfAbsent(s: string, c: char)
    requires forall j :: 0 <= j < |s| ==> s[j] != c
    ensures IndexOf(s, c) == -1
    decreases |s|
  {
    if |s| > 0 {
      IndexOfAbsent(s[1..], c);
    }
  }

  /** The first occurrence is unique: a position holding `c` with no `c`
      before it is the one `IndexOf` finds. */
  lemma {:induction false} IndexOfFirst(s: string, c: char, k: nat)
    requires k < |s| && s[k] == c
    requires forall j :: 0 <= j < k ==> s[j] != c
    ensures IndexOf(s, c) == k
    decreases k
  {
    if k > 0 {
      IndexOfFirst(s[1..], c, k - 1);
    }
  }

  function Clamp(x: int, len: nat): (r: nat)
    ensures r <= len
    ensures 0 <= x <= len ==> r == x
  {
    if x < 0 then 0 else if x > len then len else x
  }

  /** `s.substring(start, end)`: both bounds are clamped to `[0, |s|]` and
      swapped when out of order, so a negative bound reads as 0. */
  function Substring(s: string, start: int, end: int): (r: string)
    ensures |r| <= |s|
  {
    var a := Clamp(start, |s|);
    var b := Clamp(end, |s|);
    if a <= b then s[a..b] else s[b..a]
  }

  /** Bounds in order and in range select exactly that slice. */
  lemma SubstringInRange(s: string, start: int, end: int)
    requires 0 <= start <= end <= |s|
    ensures Substring(s, start, end) == s[start..end]
  {
  }

  /** Two bounds at or below zero select nothing: `substring(0, -1)` is "". */
  lemma SubstringBelowZero(s: string, start: int, end: int)
    requires start <= 0 && end <= 0
    ensures Substring(s, start, end) == []
  {
  }

  /** The order of the bounds does not matter. */
  lemma SubstringSwapped(s: string, start: int, end: int)
    ensures Substring(s, start, end) == Substring(s, end, start)
  {
  }

  /** `s.split(sep)` for a one-character separator: the pieces between the
      separators, with an empty piece at each end where `s` starts or ends
      with `sep`; the empty string gives one empty piece. */
  function Split(s: string, sep: char): (parts: seq<string>)
    ensures |parts| >= 1
    decreases |s|
  {
    var i := IndexOf(s, sep);
    if i < 0 then [s] else [s[..i]] + Split(s[i + 1..], sep)
  }

  /** The pieces of white space are white space. */
  lemma {:induction false} SplitAllSpace(s: string, sep: char)
    requires AllSpace(s)
    ensures forall i :: 0 <= i < |Split(s, sep)| ==> AllSpace(Split(s, sep)[i])
    decreases |s|
  {
    var i := IndexOf(s, sep);
    if i >= 0 {
      SplitAllSpace(s[i + 1..], sep);
    }
  }

  /** `parts.join(sep)`. */
  function JoinWith(parts: seq<string>, sep: string): (r: string)
    ensures parts != [] ==> |r| >= |parts[0]| && r[..|parts[0]|] == parts[0]
    decreases |parts|
  {
    if |parts| == 0 then ""
    else if |parts| == 1 then parts[0]
    else parts[0] + sep + JoinWith(parts[1..], sep)
  }

  /** Joining one more piece appends the separator and the piece. */
  lemma {:induction false} JoinWithAppend(parts: seq<string>, p: string, sep: string)
    requires parts != []
    ensures JoinWith(parts + [p], sep) == JoinWith(parts, sep) + sep + p
    decreases |parts|
  {
    if |parts| > 1 {
      assert (parts + [p])[1..] == parts[1..] + [p];
      JoinWithAppend(parts[1..], p, sep);
    }
  }

  lemma JoinWithCons(p: string, parts: seq<string>, sep: string)
    requires parts != []
    ensures JoinWith([p] + parts, sep) == p + sep + JoinWith(parts, sep)
  {
    assert ([p] + parts)[1..] == parts;
  }

  /** Round trip: joining the pieces of a split with the same separator gives
      back the original string. */
  lemma {:induction false} SplitThenJoin(s: string, sep: char)
    ensures JoinWith(Split(s, sep), [sep]) == s
    decreases |s|
  {
    var i := IndexOf(s, sep);
    if i >= 0 {
      var head, tail := s[..i], s[i + 1..];
      var rest := Split(tail, sep);
      SplitThenJoin(tail, sep);
      JoinWithCons(head, rest, [sep]);
      assert s == head + [sep] + tail;
    }
  }

  /** Splitting at the first separator. */
  lemma SplitAtFirst(s: string, sep: char, k: nat)
    requires k < |s| && s[k] == sep
    requires forall j :: 0 <= j < k ==> s[j] != sep
    ensures Split(s, sep) == [s[..k]] + Split(s[k + 1..], sep)
  {
    IndexOfFirst(s, sep, k);
  }

  /** Text before the separator that holds no separator is one piece. */
  lemma SplitAfterPiece(a: string, sep: char, b: string)
    requires forall j :: 0 <= j < |a| ==> a[j] != sep
    ensures Split(a + [sep] + b, sep) == [a] + Split(b, sep)
  {
    var s := a + [sep] + b;
    forall j | 0 <= j < |a| ensures s[j] != sep { assert s[j] == a[j]; }
    SplitAtFirst(s, sep, |a|);
    assert s[..|a|] == a;
    assert s[|a| + 1..] == b;
  }

  /** A separator inside the text before the added one ends the first piece. */
  lemma SplitInsidePiece(a: string, sep: char, b: string, i: nat)
    requires i < |a| && a[i] == sep
    requires forall j :: 0 <= j < i ==> a[j] != sep
    ensures Split(a + [sep] + b, sep) == [a[..i]] + Split(a[i + 1..] + [sep] + b, sep)
  {
    var s := a + [sep] + b;
    forall j | 0 <= j < i ensures s[j] != sep { assert s[j] == a[j]; }
    SplitAtFirst(s, sep, i);
    assert s[..i] == a[..i];
    assert s[i + 1..] == a[i + 1..] + [sep] + b;
  }

  /** Splitting distributes over a separator placed between two strings. */
  lemma {:induction false} SplitAround(a: string, sep: char, b: string)
    ensures Split(a + [sep] + b, sep) == Split(a, sep) + Split(b, sep)
    decreases |a|
  {
    var i := IndexOf(a, sep);
    IndexOfNoEarlier(a, sep);
    if i < 0 {
      SplitAfterPiece(a, sep, b);
    } else {
      SplitInsidePiece(a, sep, b, i);
      SplitAround(a[i + 1..], sep, b);
    }
  }
}

/** The parts of JavaScript's `String` and `Array` behaviour the language
    server relies on: `trim`, `split`, `join`, `slice` (with negative
    indices), `indexOf`, `replace` of a literal, `startsWith`, `includes`,
    `toLowerCase`, decimal rendering of integers, and the "last piece of a
    regex split" idiom used to find the word around the cursor. */
module Strings {
  import opened Optional

  // ---------------------------------------------------------------------
  // Whitespace and trim
  // ---------------------------------------------------------------------

  /** ECMAScript WhiteSpace or LineTerminator: exactly the characters the
      regex class `\s` matches and `String.prototype.trim` removes. */
  predicate IsSpace(c: char) {
    || c == ' ' || c == '\t' || c == '\n' || c == '\r'
    || c == '\U{000B}' || c == '\U{000C}' || c == '\U{00A0}' || c == '\U{1680}'
    || ('\U{2000}' <= c <= '\U{200A}')
    || c == '\U{2028}' || c == '\U{2029}' || c == '\U{202F}' || c == '\U{205F}'
    || c == '\U{3000}' || c == '\U{FEFF}'
  }

  predicate AllSpace(s: string) {
    forall i :: 0 <= i < |s| ==> IsSpace(s[i])
  }

  /** Neither end of `s` is whitespace. */
  predicate Trimmed(s: string) {
    s == [] || (!IsSpace(s[0]) && !IsSpace(s[|s| - 1]))
  }

  function TrimStart(s: string): (r: string)
    ensures |r| <= |s|
    ensures r == [] || !IsSpace(r[0])
  {
    if |s| == 0 || !IsSpace(s[0]) then s else TrimStart(s[1..])
  }

  function TrimEnd(s: string): (r: string)
    ensures |r| <= |s|
    ensures r == [] || !IsSpace(r[|r| - 1])
  {
    if |s| == 0 || !IsSpace(s[|s| - 1]) then s else TrimEnd(s[..|s| - 1])
  }

  /** TrimStart removes a whitespace prefix and keeps the rest. */
  lemma {:induction false} TrimStartRemovesSpace(s: string)
    ensures var r := TrimStart(s);
            r == s[|s| - |r|..] && AllSpace(s[..|s| - |r|])
    decreases |s|
  {
    if |s| > 0 && IsSpace(s[0]) {
      TrimStartRemovesSpace(s[1..]);
      var r := TrimStart(s[1..]);
      assert s[..|s| - |r|] == [s[0]] + s[1..][..|s| - 1 - |r|];
    }
  }

  /** TrimEnd removes a whitespace suffix and keeps the rest. */
  lemma {:induction false} TrimEndRemovesSpace(s: string)
    ensures var r := TrimEnd(s);
            r == s[..|r|] && AllSpace(s[|r|..])
    decreases |s|
  {
    if |s| > 0 && IsSpace(s[|s| - 1]) {
      TrimEndRemovesSpace(s[..|s| - 1]);
      var r := TrimEnd(s[..|s| - 1]);
      assert s[|r|..] == s[..|s| - 1][|r|..] + [s[|s| - 1]];
    }
  }

  /** `String.prototype.trim`. */
  function Trim(s: string): (r: string)
    ensures Trimmed(r)
    ensures |r| <= |s|
  {
    var t := TrimStart(s);
    TrimEndRemovesSpace(t);
    TrimEnd(t)
  }

  lemma {:induction false} TrimStartSkips(w: string, t: string)
    requires AllSpace(w)
    requires t == [] || !IsSpace(t[0])
    ensures TrimStart(w + t) == t
    decreases |w|
  {
    if |w| == 0 {
      assert w + t == t;
    } else {
      assert (w + t)[1..] == w[1..] + t;
      TrimStartSkips(w[1..], t);
    }
  }

  lemma {:induction false} TrimEndSkips(t: string, w: string)
    requires AllSpace(w)
    requires t == [] || !IsSpace(t[|t| - 1])
    ensures TrimEnd(t + w) == t
    decreases |w|
  {
    if |w| == 0 {
      assert t + w == t;
    } else {
      assert (t + w)[..|t + w| - 1] == t + w[..|w| - 1];
      TrimEndSkips(t, w[..|w| - 1]);
    }
  }

  /** Trim removes exactly the surrounding whitespace: whatever trimmed
      text `t` is padded with, trimming gives back `t`. */
  lemma TrimOfPadded(w1: string, t: string, w2: string)
    requires AllSpace(w1) && AllSpace(w2) && Trimmed(t)
    ensures Trim(w1 + t + w2) == t
  {
    if t == [] {
      assert w1 + t + w2 == (w1 + w2) + [];
      TrimStartSkips(w1 + w2, []);
    } else {
      assert w1 + t + w2 == w1 + (t + w2);
      TrimStartSkips(w1, t + w2);
      TrimEndSkips(t, w2);
    }
  }

  /** Leading whitespace does not survive a trim. */
  lemma TrimDropsLeadingSpace(c: char, s: string)
    requires IsSpace(c)
    ensures Trim([c] + s) == Trim(s)
  {
    assert ([c] + s)[1..] == s;
  }

  /** Trim applied to every piece. */
  function TrimAll(parts: seq<string>): (r: seq<string>)
    ensures |r| == |parts|
    ensures forall i :: 0 <= i < |parts| ==> r[i] == Trim(parts[i])
  {
    seq(|parts|, i requires 0 <= i < |parts| => Trim(parts[i]))
  }

  /** Trimming twice is trimming once. */
  lemma TrimIdempotent(s: string)
    ensures Trim(Trim(s)) == Trim(s)
  {
    var t := Trim(s);
    assert [] + t + [] == t;
    TrimOfPadded([], t, []);
  }

  /** Joining two trimmed texts with a blank line and trimming the result
      drops the separator when either side is empty. */
  lemma TrimJoinBlankLine(a: string, b: string)
    requires Trimmed(a) && Trimmed(b)
    ensures Trim(a + "\n\n" + b) ==
      if a == [] then b else if b == [] then a else a + "\n\n" + b
  {
    var nl: string := "\n\n";
    assert AllSpace(nl);
    if a == [] {
      assert a + nl + b == nl + b + [];
      TrimOfPadded(nl, b, []);
    } else if b == [] {
      assert a + nl + b == [] + a + nl;
      TrimOfPadded([], a, nl);
    } else {
      var t := a + nl + b;
      assert t[0] == a[0] && t[|t| - 1] == b[|b| - 1];
      assert [] + t + [] == t;
      TrimOfPadded([], t, []);
    }
  }

  // ---------------------------------------------------------------------
  // Prefixes, search and replacement
  // ---------------------------------------------------------------------

  predicate StartsWith(s: string, p: string) {
    |p| <= |s| && s[..|p|] == p
  }

  predicate EndsWith(s: string, p: string) {
    |p| <= |s| && s[|s| - |p|..] == p
  }

  /** `p` occurs in `s` at index `i`. */
  predicate OccursAt(s: string, p: string, i: nat) {
    i + |p| <= |s| && s[i..i + |p|] == p
  }

  function IndexOfFrom(s: string, p: string, from: nat): (r: Option<nat>)
    requires from <= |s|
    ensures r.Some? ==> from <= r.value && OccursAt(s, p, r.value)
    ensures r.Some? ==> forall k :: from <= k < r.value ==> !OccursAt(s, p, k)
    ensures r.None? ==> forall k :: from <= k <= |s| ==> !OccursAt(s, p, k)
    decreases |s| - from
  {
    if OccursAt(s, p, from) then Some(from)
    else if from == |s| then None
    else IndexOfFrom(s, p, from + 1)
  }

  /** `String.prototype.indexOf`: the first occurrence of `p` in `s`. */
  function IndexOf(s: string, p: string): (r: Option<nat>)
    ensures r.Some? ==> OccursAt(s, p, r.value)
    ensures r.Some? ==> forall k :: 0 <= k < r.value ==> !OccursAt(s, p, k)
    ensures r.None? ==> forall k :: 0 <= k <= |s| ==> !OccursAt(s, p, k)
  {
    IndexOfFrom(s, p, 0)
  }

  /** `String.prototype.includes`. */
  predicate Contains(s: string, p: string) {
    IndexOf(s, p).Some?
  }

  /** `String.prototype.replace` with a literal pattern: only the first
      occurrence is replaced, and nothing changes when there is none. */
  function ReplaceFirst(s: string, p: string, q: string): (r: string)
  {
    match IndexOf(s, p)
    case None => s
    case Some(i) => s[..i] + q + s[i + |p|..]
  }

  /** Replacing a prefix the string starts with by `q` swaps exactly that
      prefix. */
  lemma ReplaceFirstAtStart(s: string, p: string, q: string)
    requires StartsWith(s, p)
    ensures ReplaceFirst(s, p, q) == q + s[|p|..]
  {
    assert OccursAt(s, p, 0);
  }

  /** The text before the first occurrence of `p`, or all of `s`:
      `s.split(p)[0]`. */
  function BeforeFirst(s: string, p: string): (r: string)
    requires p != []
    ensures StartsWith(s, r)
    ensures Contains(s, p) <==> |r| < |s|
    ensures Contains(s, p) ==> OccursAt(s, p, |r|)
    ensures forall k :: 0 <= k < |r| ==> !OccursAt(s, p, k)
    ensures forall k :: 0 <= k <= |r| - |p| ==> !OccursAt(r, p, k)
  {
    match IndexOf(s, p)
    case None => s
    case Some(i) =>
      assert forall k :: 0 <= k <= i - |p| ==> !OccursAt(s[..i], p, k) by {
        forall k | 0 <= k <= i - |p|
          ensures !OccursAt(s[..i], p, k)
        {
          assert s[..i][k..k + |p|] == s[k..k + |p|];
          assert !OccursAt(s, p, k);
        }
      }
      s[..i]
  }

  // ---------------------------------------------------------------------
  // Characters counted, split and joined
  // ---------------------------------------------------------------------

  function CountChar(s: string, c: char): (n: nat)
    ensures n <= |s|
    ensures n == 0 <==> c !in s
  {
    if |s| == 0 then 0
    else (if s[0] == c then 1 else 0) + CountChar(s[1..], c)
  }

  lemma {:induction false} CountCharAppend(a: string, b: string, c: char)
    ensures CountChar(a + b, c) == CountChar(a, c) + CountChar(b, c)
    decreases |a|
  {
    if |a| == 0 {
      assert a + b == b;
    } else {
      assert (a + b)[1..] == a[1..] + b;
      CountCharAppend(a[1..], b, c);
    }
  }

  /** The position of the first `c` at or after `j`; `|s|` when there is
      none. */
  function FirstIndexFrom(s: string, c: char, j: nat): (i: nat)
    requires j <= |s|
    ensures j <= i <= |s|
    ensures i < |s| ==> s[i] == c
    ensures forall k :: j <= k < i ==> s[k] != c
    decreases |s| - j
  {
    if j == |s| || s[j] == c then j else FirstIndexFrom(s, c, j + 1)
  }

  function FirstIndex(s: string, c: char): (i: nat)
    ensures i <= |s|
    ensures i < |s| ==> s[i] == c
    ensures forall k :: 0 <= k < i ==> s[k] != c
  {
    FirstIndexFrom(s, c, 0)
  }

  /** The first occurrence is the one with no occurrence before it. */
  lemma FirstIndexUnique(s: string, c: char, q: nat)
    requires q <= |s|
    requires q < |s| ==> s[q] == c
    requires forall k :: 0 <= k < q ==> s[k] != c
    ensures FirstIndex(s, c) == q
  {
  }

  /** `Array.prototype.join`. */
  function Join(parts: seq<string>, sep: string): string
  {
    if |parts| == 0 then []
    else if |parts| == 1 then parts[0]
    else parts[0] + sep + Join(parts[1..], sep)
  }

  /** A join begins with its first piece. */
  lemma JoinStarts(parts: seq<string>, sep: string)
    requires |parts| >= 1
    ensures StartsWith(Join(parts, sep), parts[0])
  {
    if |parts| > 1 {
      var j := Join(parts, sep);
      var p := parts[0];
      assert j == p + (sep + Join(parts[1..], sep));
      assert j[..|p|] == p;
    }
  }

  /** A join ends with its last piece. */
  lemma {:induction false} JoinEndsWithLast(parts: seq<string>, sep: string)
    requires |parts| >= 1
    ensures EndsWith(Join(parts, sep), parts[|parts| - 1])
    decreases |parts|
  {
    if |parts| > 1 {
      var tail := parts[1..];
      var rest := Join(tail, sep);
      var last := parts[|parts| - 1];
      JoinEndsWithLast(tail, sep);
      assert tail[|tail| - 1] == last;
      var j := Join(parts, sep);
      var front := parts[0] + sep;
      assert j == front + rest;
      assert rest[|rest| - |last|..] == last;
      assert j[|j| - |last|..] == rest[|rest| - |last|..];
    }
  }

  /** Trimming text that is already trimmed changes nothing. */
  lemma TrimOfTrimmed(t: string)
    requires Trimmed(t)
    ensures Trim(t) == t
  {
    assert [] + t + [] == t;
    TrimOfPadded([], t, []);
  }

  lemma JoinCons(x: string, t: seq<string>, sep: string)
    requires |t| >= 1
    ensures Join([x] + t, sep) == x + sep + Join(t, sep)
  {
    assert ([x] + t)[1..] == t;
  }

  /** `String.prototype.split` on a one-character separator: the maximal
      separator-free pieces, in order. */
  function Split(s: string, sep: char): (r: seq<string>)
    ensures |r| >= 1
    ensures forall i :: 0 <= i < |r| ==> sep !in r[i]
    decreases |s|
  {
    var i := FirstIndex(s, sep);
    if i == |s| then [s]
    else [s[..i]] + Split(s[i + 1..], sep)
  }

  /** The pieces of a text holding the separator: the text before its
      first occurrence, then the pieces of the text after it. */
  lemma SplitAtFirst(s: string, sep: char, i: nat)
    requires i == FirstIndex(s, sep) < |s|
    ensures Split(s, sep) == [s[..i]] + Split(s[i + 1..], sep)
  {
  }

  /** Joining the pieces back with the separator restores the text. */
  lemma {:induction false} SplitJoin(s: string, sep: char)
    ensures Join(Split(s, sep), [sep]) == s
    decreases |s|
  {
    var i := FirstIndex(s, sep);
    if i < |s| {
      var rest := s[i + 1..];
      SplitAtFirst(s, sep, i);
      SplitJoin(rest, sep);
      JoinCons(s[..i], Split(rest, sep), [sep]);
      assert s == s[..i] + [sep] + rest;
    }
  }

  /** There is one more piece than there are separators. */
  lemma {:induction false} SplitCount(s: string, sep: char)
    ensures |Split(s, sep)| == CountChar(s, sep) + 1
    decreases |s|
  {
    var i := FirstIndex(s, sep);
    if i < |s| {
      var pre, post := s[..i], s[i + 1..];
      SplitAtFirst(s, sep, i);
      SplitCount(post, sep);
      assert s == pre + ([sep] + post);
      CountCharAppend(pre, [sep] + post, sep);
      CountCharAppend([sep], post, sep);
      assert sep !in pre;
      assert CountChar([sep], sep) == 1;
    } else {
      assert sep !in s;
    }
  }

  /** A first character that is not the separator joins the first piece. */
  lemma SplitCons(c: char, s: string, sep: char)
    requires c != sep
    ensures Split([c] + s, sep) == [[c] + Split(s, sep)[0]] + Split(s, sep)[1..]
  {
    var t := [c] + s;
    var i := FirstIndex(s, sep);
    forall k | 0 <= k < i + 1
      ensures t[k] != sep
    {
      if k > 0 {
        assert t[k] == s[k - 1];
      }
    }
    assert i < |s| ==> t[i + 1] == s[i];
    FirstIndexUnique(t, sep, i + 1);
    if i < |s| {
      SplitAtFirst(s, sep, i);
      SplitAtFirst(t, sep, i + 1);
      assert t[..i + 1] == [c] + s[..i];
      assert t[i + 2..] == s[i + 1..];
    }
  }

  /** Splitting a text that starts with a separator-free head and a
      separator gives the head followed by the pieces of the rest. */
  lemma SplitAfterHead(head: string, sep: char, rest: string)
    requires sep !in head
    ensures Split(head + [sep] + rest, sep) == [head] + Split(rest, sep)
  {
    var s := head + [sep] + rest;
    assert forall k :: 0 <= k < |head| ==> s[k] == head[k];
    FirstIndexUnique(s, sep, |head|);
    SplitAtFirst(s, sep, |head|);
    assert s[..|head|] == head && s[|head| + 1..] == rest;
  }

  /** Splitting a join of separator-free pieces gives the pieces back. */
  lemma {:induction false} JoinSplit(parts: seq<string>, sep: char)
    requires |parts| >= 1
    requires forall i :: 0 <= i < |parts| ==> sep !in parts[i]
    ensures Split(Join(parts, [sep]), sep) == parts
    decreases |parts|
  {
    if |parts| > 1 {
      JoinSplit(parts[1..], sep);
      SplitAfterHead(parts[0], sep, Join(parts[1..], [sep]));
      assert [parts[0]] + parts[1..] == parts;
    }
  }

  /** `lastIndexOf` on one character: -1 when it does not occur. */
  function LastIndexOfChar(s: string, c: char): (r: int)
    ensures -1 <= r < |s|
    ensures r >= 0 ==> s[r] == c
    ensures forall k :: r < k < |s| ==> s[k] != c
    decreases |s|
  {
    if |s| == 0 then -1
    else if s[|s| - 1] == c then |s| - 1
    else LastIndexOfChar(s[..|s| - 1], c)
  }

  /** The last piece of a split is as long as the text after the last
      separator. */
  lemma {:induction false} LastPieceLength(s: string, sep: char)
    ensures var r := Split(s, sep);
            |r[|r| - 1]| == |s| - 1 - LastIndexOfChar(s, sep)
    decreases |s|
  {
    var i := FirstIndex(s, sep);
    if i == |s| {
      assert Split(s, sep) == [s];
      LastIndexUnique(s, sep, -1);
    } else {
      var rest := s[i + 1..];
      var k := LastIndexOfChar(rest, sep);
      var t := Split(rest, sep);
      LastPieceLength(rest, sep);
      assert |t[|t| - 1]| == |rest| - 1 - k;
      SplitAtFirst(s, sep, i);
      LastIndexAfter(s, sep, i);
      LastPieceStep(Split(s, sep), t, s[..i], |s|, i, k, LastIndexOfChar(s, sep));
    }
  }

  /** The last piece of a split is a suffix of the text. */
  lemma {:induction false} LastPieceIsSuffix(s: string, sep: char)
    ensures var r := Split(s, sep);
            |r[|r| - 1]| <= |s| && r[|r| - 1] == s[|s| - |r[|r| - 1]|..]
    decreases |s|
  {
    var i := FirstIndex(s, sep);
    if i == |s| {
      assert Split(s, sep) == [s];
    } else {
      var rest := s[i + 1..];
      var t := Split(rest, sep);
      LastPieceIsSuffix(rest, sep);
      var n := |t[|t| - 1]|;
      assert t[|t| - 1] == rest[|rest| - n..];
      SplitAtFirst(s, sep, i);
      var r := Split(s, sep);
      assert r == [s[..i]] + t;
      assert r[|r| - 1] == t[|t| - 1];
      assert s[|s| - n..] == rest[|rest| - n..];
    }
  }

  /** The last piece of a split is the text after the last separator. */
  lemma LastPieceAfterLastSeparator(s: string, sep: char)
    ensures var r := Split(s, sep);
            LastIndexOfChar(s, sep) + 1 <= |s| && r[|r| - 1] == s[LastIndexOfChar(s, sep) + 1..]
  {
    LastPieceLength(s, sep);
    LastPieceIsSuffix(s, sep);
  }

  /** The arithmetic of the induction step of `LastPieceLength`. */
  lemma LastPieceStep<T>(r: seq<seq<T>>, t: seq<seq<T>>, x: seq<T>, n: int, i: int, k: int, last: int)
    requires r == [x] + t && |t| >= 1
    requires |t[|t| - 1]| == n - i - 2 - k && k >= -1
    requires last == if k >= 0 then i + 1 + k else i
    ensures |r[|r| - 1]| == n - 1 - last
  {
    assert r[|r| - 1] == t[|t| - 1];
  }

  /** An occurrence at `i` is the last one unless the text after it holds
      another. */
  lemma LastIndexAfter(s: string, c: char, i: nat)
    requires i < |s| && s[i] == c
    ensures var k := LastIndexOfChar(s[i + 1..], c);
            LastIndexOfChar(s, c) == if k >= 0 then i + 1 + k else i
  {
    var rest := s[i + 1..];
    var k := LastIndexOfChar(rest, c);
    var q := if k >= 0 then i + 1 + k else i;
    forall j | q < j < |s|
      ensures s[j] != c
    {
      assert s[j] == rest[j - i - 1];
    }
    assert k >= 0 ==> s[q] == rest[k];
    LastIndexUnique(s, c, q);
  }

  /** The last occurrence is the one with no occurrence after it. */
  lemma LastIndexUnique(s: string, c: char, q: int)
    requires -1 <= q < |s|
    requires q >= 0 ==> s[q] == c
    requires forall j :: q < j < |s| ==> s[j] != c
    ensures LastIndexOfChar(s, c) == q
  {
  }

  // ---------------------------------------------------------------------
  // Slicing with JavaScript index rules
  // ---------------------------------------------------------------------

  /** How `slice` reads an index: negative counts from the end, and the
      result is clamped to `[0, len]`. */
  function SliceIndex(i: int, len: nat): (r: nat)
    ensures r <= len
    ensures 0 <= i <= len ==> r == i
    ensures i < 0 && len + i >= 0 ==> r == len + i
  {
    if i < 0 then (if len + i < 0 then 0 else len + i)
    else if i > len then len
    else i
  }

  /** `String.prototype.slice` and `Array.prototype.slice`. */
  function Slice<T>(s: seq<T>, start: int, end: int): (r: seq<T>)
    ensures |r| <= |s|
    ensures 0 <= start <= end <= |s| ==> r == s[start..end]
  {
    var a := SliceIndex(start, |s|);
    var b := SliceIndex(end, |s|);
    if a < b then s[a..b] else []
  }

  /** `s[k]`, which is `undefined` outside the array. */
  function At<T>(s: seq<T>, k: int): (r: Option<T>)
    ensures r.Some? <==> 0 <= k < |s|
    ensures r.Some? ==> r.value == s[k]
  {
    if 0 <= k < |s| then Some(s[k]) else None
  }

  // ---------------------------------------------------------------------
  // Words around the cursor
  // ---------------------------------------------------------------------

  /** The last piece of `s.split(/[stop]+/)`: the longest suffix of `s`
      holding no stop character. */
  function TrailingRun(s: string, stop: char -> bool): (r: string)
    ensures |r| <= |s| && r == s[|s| - |r|..]
    ensures forall i :: 0 <= i < |r| ==> !stop(r[i])
    ensures |r| < |s| ==> stop(s[|s| - |r| - 1])
  {
    var k := RunStart(s, stop, |s|);
    var r := s[k..];
    assert forall i :: 0 <= i < |r| ==> r[i] == s[k + i];
    r
  }

  /** Where the stop-free run ending at `j` begins. */
  function RunStart(s: string, stop: char -> bool, j: nat): (k: nat)
    requires j <= |s|
    ensures k <= j
    ensures forall i :: k <= i < j ==> !stop(s[i])
    ensures 0 < k ==> stop(s[k - 1])
    decreases j
  {
    if j == 0 || stop(s[j - 1]) then j else RunStart(s, stop, j - 1)
  }

  /** The first piece of `s.split(/[stop]+/)`: the longest prefix of `s`
      holding no stop character. */
  function LeadingRun(s: string, stop: char -> bool): (r: string)
    ensures |r| <= |s| && r == s[..|r|]
    ensures forall i :: 0 <= i < |r| ==> !stop(r[i])
    ensures |r| < |s| ==> stop(s[|r|])
  {
    if |s| == 0 || stop(s[0]) then []
    else
      var r := LeadingRun(s[1..], stop);
      assert [s[0]] + s[1..][..|r|] == s[..|r| + 1];
      [s[0]] + r
  }

  // ---------------------------------------------------------------------
  // Case and numbers
  // ---------------------------------------------------------------------

  function LowerChar(c: char): char {
    if 'A' <= c <= 'Z' then (c as int + 32) as char else c
  }

  /** `String.prototype.toLowerCase`, on the ASCII letters. */
  function ToLower(s: string): (r: string)
    ensures |r| == |s|
    ensures forall i :: 0 <= i < |s| ==> r[i] == LowerChar(s[i])
  {
    seq(|s|, i requires 0 <= i < |s| => LowerChar(s[i]))
  }

  predicate IsDigit(c: char) {
    '0' <= c <= '9'
  }

  function DigitChar(d: nat): (c: char)
    requires d < 10
    ensures IsDigit(c)
  {
    ('0' as int + d) as char
  }

  /** The decimal text of `n`, as JavaScript renders an integer (`n + ''`
      or a template literal). */
  function NatToString(n: nat): (r: string)
    ensures |r| >= 1
    ensures forall i :: 0 <= i < |r| ==> IsDigit(r[i])
    ensures r[0] == '0' ==> n == 0
  {
    if n < 10 then [DigitChar(n)]
    else NatToString(n / 10) + [DigitChar(n % 10)]
  }

  /** The value of a string of decimal digits. */
  function DecimalValue(s: string): nat
    requires forall i :: 0 <= i < |s| ==> IsDigit(s[i])
  {
    if |s| == 0 then 0
    else
      assert IsDigit(s[|s| - 1]);
      10 * DecimalValue(s[..|s| - 1]) + (s[|s| - 1] as int - '0' as int)
  }

  /** Reading the decimal text back gives the number: rendering loses
      nothing, so distinct indices get distinct labels. */
  lemma {:induction false} DecimalRoundTrip(n: nat)
    ensures DecimalValue(NatToString(n)) == n
  {
    if n >= 10 {
      var r := NatToString(n);
      assert r[..|r| - 1] == NatToString(n / 10);
      DecimalRoundTrip(n / 10);
    }
  }

  lemma NatToStringInjective(m: nat, n: nat)
    requires NatToString(m) == NatToString(n)
    ensures m == n
  {
    DecimalRoundTrip(m);
    DecimalRoundTrip(n);
  }
}

/**
 * The JavaScript string and array operations the tool is built from, written out
 * over `seq<char>`: the whitespace class of `\s` and `trim()`, ASCII case folding,
 * substring search, `split`/`join`, global `replace`, `filter` and the
 * first-occurrence de-duplication of `Array.from(new Set(xs))`.
 */
module Strings {
  import opened Wrappers

  /** The code points matched by `\s` and removed by `trim()` (WhiteSpace and LineTerminator). */
  predicate IsWhitespace(c: char) {
    var n := c as int;
    n == 0x09 || n == 0x0A || n == 0x0B || n == 0x0C || n == 0x0D || n == 0x20 ||
    n == 0xA0 || n == 0x1680 || (0x2000 <= n <= 0x200A) || n == 0x2028 || n == 0x2029 ||
    n == 0x202F || n == 0x205F || n == 0x3000 || n == 0xFEFF
  }

  predicate IsAsciiLetter(c: char) { 'a' <= c <= 'z' || 'A' <= c <= 'Z' }

  predicate IsDigit(c: char) { '0' <= c <= '9' }

  function ToLowerChar(c: char): char {
    if 'A' <= c <= 'Z' then (c as int + 32) as char else c
  }

  /** `toLowerCase()`, folding ASCII letters only. */
  function ToLower(s: string): (r: string)
    ensures |r| == |s|
  {
    seq(|s|, i requires 0 <= i < |s| => ToLowerChar(s[i]))
  }

  predicate StartsWith(s: string, prefix: string) {
    |prefix| <= |s| && s[..|prefix|] == prefix
  }

  predicate EndsWith(s: string, suffix: string) {
    |suffix| <= |s| && s[|s| - |suffix|..] == suffix
  }

  /** `pat` occurs in `s` starting at index `i`. */
  predicate OccursAt(s: string, pat: string, i: nat) {
    i + |pat| <= |s| && s[i..i + |pat|] == pat
  }

  /** `s.includes(pat)`. */
  predicate Contains(s: string, pat: string) {
    exists i :: 0 <= i <= |s| && OccursAt(s, pat, i)
  }

  /** A pattern placed between two strings is found there. */
  lemma ContainsBetween(a: string, pat: string, b: string)
    ensures OccursAt(a + pat + b, pat, |a|) && Contains(a + pat + b, pat)
  {
    assert (a + pat + b)[|a|..|a| + |pat|] == pat;
    assert OccursAt(a + pat + b, pat, |a|);
  }

  /** What one part contains, the concatenation contains. */
  lemma ContainsConcat(x: string, y: string, pat: string)
    ensures Contains(x, pat) || Contains(y, pat) ==> Contains(x + y, pat)
  {
    if Contains(x, pat) {
      var i :| 0 <= i <= |x| && OccursAt(x, pat, i);
      assert (x + y)[i..i + |pat|] == x[i..i + |pat|];
      assert OccursAt(x + y, pat, i);
    } else if Contains(y, pat) {
      var i :| 0 <= i <= |y| && OccursAt(y, pat, i);
      assert (x + y)[|x| + i..|x| + i + |pat|] == y[i..i + |pat|];
      assert OccursAt(x + y, pat, |x| + i);
    }
  }

  /** Whatever contains `a + b` contains `b`. */
  lemma ContainsTail(s: string, a: string, b: string)
    requires Contains(s, a + b)
    ensures Contains(s, b)
  {
    var k :| 0 <= k <= |s| && OccursAt(s, a + b, k);
    assert s[k + |a|..k + |a| + |b|] == s[k..k + |a + b|][|a|..];
    assert OccursAt(s, b, k + |a|);
  }

  lemma ContainsSelf(pat: string)
    ensures Contains(pat, pat)
  {
    assert pat[0..|pat|] == pat;
    assert OccursAt(pat, pat, 0);
  }

  /** `s.indexOf(pat, from)`: the first occurrence of `pat` at or after `from`, if any. */
  function IndexOf(s: string, pat: string, from: nat): (r: Option<nat>)
    ensures r.Some? ==> from <= r.value && OccursAt(s, pat, r.value)
    ensures r.Some? ==> forall k :: from <= k < r.value ==> !OccursAt(s, pat, k)
    ensures r.None? ==> forall k: nat :: from <= k ==> !OccursAt(s, pat, k)
    decreases |s| - from
  {
    if from + |pat| > |s| then None
    else if OccursAt(s, pat, from) then Some(from)
    else IndexOf(s, pat, from + 1)
  }

  /** `s.trimStart()`: the suffix of `s` left after its leading whitespace. */
  function TrimStart(s: string): (r: string)
    ensures |r| <= |s| && r == s[|s| - |r|..]
    ensures forall i :: 0 <= i < |s| - |r| ==> IsWhitespace(s[i])
    ensures r == [] || !IsWhitespace(r[0])
  {
    if s != [] && IsWhitespace(s[0]) then TrimStart(s[1..]) else s
  }

  /** `s.trimEnd()`: the prefix of `s` left before its trailing whitespace. */
  function TrimEnd(s: string): (r: string)
    ensures |r| <= |s| && r == s[..|r|]
    ensures forall i :: |r| <= i < |s| ==> IsWhitespace(s[i])
    ensures r == [] || !IsWhitespace(r[|r| - 1])
  {
    if s != [] && IsWhitespace(s[|s| - 1]) then TrimEnd(s[..|s| - 1]) else s
  }

  /** `s.trim()`. */
  function Trim(s: string): (r: string)
    ensures r == [] || (!IsWhitespace(r[0]) && !IsWhitespace(r[|r| - 1]))
  {
    TrimEnd(TrimStart(s))
  }

  /** `s.trim()` leaves a contiguous piece of `s`. */
  lemma TrimIsSlice(s: string) returns (a: nat)
    ensures a + |Trim(s)| <= |s| && Trim(s) == s[a..a + |Trim(s)|]
  {
    var t := TrimStart(s);
    a := |s| - |t|;
    assert Trim(s) == t[..|Trim(s)|];
  }

  /** No whitespace at either end, as `trim()` leaves a string. */
  predicate IsTrimmed(s: string) {
    s == [] || (!IsWhitespace(s[0]) && !IsWhitespace(s[|s| - 1]))
  }

  /** `trim()` introduces no character that was not there. */
  lemma TrimKeepsChars(s: string)
    ensures forall c :: c in Trim(s) ==> c in s
  {
    var a := TrimIsSlice(s);
    forall c | c in Trim(s)
      ensures c in s
    {
      var k :| 0 <= k < |Trim(s)| && Trim(s)[k] == c;
      assert s[a + k] == c;
    }
  }

  /** A string without whitespace at either end is its own trim. */
  lemma TrimUnchanged(s: string)
    requires s == [] || (!IsWhitespace(s[0]) && !IsWhitespace(s[|s| - 1]))
    ensures Trim(s) == s
  {
    assert TrimStart(s) == s;
  }

  /** `parts.map((part) => part.trim())`. */
  function TrimEach(parts: seq<string>): (r: seq<string>)
    ensures |r| == |parts| && forall i :: 0 <= i < |parts| ==> r[i] == Trim(parts[i])
  {
    seq(|parts|, i requires 0 <= i < |parts| => Trim(parts[i]))
  }

  predicate NonEmpty(s: string) { |s| > 0 }

  /** `parts.map((part) => part.trim()).filter((part) => part.length > 0)`. */
  function TrimNonEmpty(parts: seq<string>): (items: seq<string>)
    ensures forall x :: x in items ==> NonEmpty(x) && x in TrimEach(parts)
    ensures forall p :: p in TrimEach(parts) && NonEmpty(p) ==> p in items
    ensures IsSubsequence(items, TrimEach(parts))
  {
    FilterIsSubsequence(TrimEach(parts), NonEmpty);
    Filter(TrimEach(parts), NonEmpty)
  }

  /** A piece in front contributes its trim, unless that is empty. */
  lemma TrimNonEmptyCons(p: string, parts: seq<string>)
    ensures TrimNonEmpty([p] + parts) == (if Trim(p) == [] then [] else [Trim(p)]) + TrimNonEmpty(parts)
  {
    TrimEachCons(p, parts);
    FilterCons(Trim(p), TrimEach(parts), NonEmpty);
  }

  lemma TrimEachCons(p: string, parts: seq<string>)
    ensures TrimEach([p] + parts) == [Trim(p)] + TrimEach(parts)
  {
    var t := TrimEach([p] + parts);
    TrimEachHead(p, parts);
    forall i | 0 < i < |t|
      ensures t[i] == TrimEach(parts)[i - 1]
    {
      TrimEachTail(p, parts, i);
    }
    ConsPointwise(t, Trim(p), TrimEach(parts));
  }

  lemma TrimEachHead(p: string, parts: seq<string>)
    ensures TrimEach([p] + parts)[0] == Trim(p)
  {
  }

  lemma TrimEachTail(p: string, parts: seq<string>, i: nat)
    requires 0 < i <= |parts|
    ensures TrimEach([p] + parts)[i] == TrimEach(parts)[i - 1]
  {
  }

  /** A sequence that agrees with `[x] + b` everywhere is `[x] + b`. */
  lemma ConsPointwise<T>(a: seq<T>, x: T, b: seq<T>)
    requires |a| == |b| + 1 && a[0] == x
    requires forall i :: 0 < i < |a| ==> a[i] == b[i - 1]
    ensures a == [x] + b
  {
  }

  /** An empty piece at the end contributes nothing. */
  lemma TrimNonEmptyBlankEnd(parts: seq<string>)
    ensures TrimNonEmpty(parts + [""]) == TrimNonEmpty(parts)
  {
    var t := TrimEach(parts);
    assert Trim("") == "";
    assert TrimEach(parts + [""]) == t + [""];
    FilterConcat(t, [""], NonEmpty);
    assert Filter([""], NonEmpty) == [];
    assert t + [] == t;
  }

  /** `piece` occupies `s` from index `a` on. */
  predicate SliceAt(piece: string, s: string, a: int) {
    0 <= a <= |s| - |piece| && s[a..a + |piece|] == piece
  }

  /** `piece` is a contiguous part of `s`. */
  predicate IsSliceOf(piece: string, s: string) {
    exists a :: 0 <= a <= |s| && SliceAt(piece, s, a)
  }

  /** A slice of a slice is a slice. */
  lemma SliceOfSlice(piece: string, mid: string, s: string)
    requires IsSliceOf(piece, mid) && IsSliceOf(mid, s)
    ensures IsSliceOf(piece, s)
  {
    var b :| 0 <= b <= |mid| && SliceAt(piece, mid, b);
    var a :| 0 <= a <= |s| && SliceAt(mid, s, a);
    assert forall k :: 0 <= k < |piece| ==> s[a + b + k] == mid[b + k] == piece[k];
    assert s[a + b..a + b + |piece|] == piece;
    assert SliceAt(piece, s, a + b);
  }

  /** `s.trim()` is a slice of `s`. */
  /** A slice is found by `includes`, and what `includes` finds is a slice. */
  lemma SliceIsContained(piece: string, s: string)
    ensures IsSliceOf(piece, s) <==> Contains(s, piece)
  {
    if IsSliceOf(piece, s) {
      var a :| 0 <= a <= |s| && SliceAt(piece, s, a);
      assert OccursAt(s, piece, a);
    }
    if Contains(s, piece) {
      var a :| 0 <= a <= |s| && OccursAt(s, piece, a);
      assert SliceAt(piece, s, a);
    }
  }

  lemma PrefixSlice(s: string, j: nat)
    requires j <= |s|
    ensures IsSliceOf(s[..j], s)
  {
    assert SliceAt(s[..j], s, 0);
  }

  /** Every trimmed piece of a split is a slice of the text split. */
  lemma TrimmedPiecesInText(s: string, sep: char)
    ensures forall l :: l in TrimEach(Split(s, sep)) ==> IsSliceOf(l, s)
  {
    var parts := Split(s, sep);
    JoinSplit(s, sep);
    forall i | 0 <= i < |parts|
      ensures IsSliceOf(Trim(parts[i]), s)
    {
      TrimSlice(parts[i]);
      JoinContains(parts, [sep], i);
      SliceIsContained(parts[i], s);
      SliceOfSlice(Trim(parts[i]), parts[i], s);
    }
  }

  lemma TrimSlice(s: string)
    ensures IsSliceOf(Trim(s), s)
  {
    var a := TrimIsSlice(s);
    assert SliceAt(Trim(s), s, a);
  }

  /** Trimmed pieces of a split hold no separator and are their own trim. */
  lemma TrimEachShape(parts: seq<string>, sep: char)
    requires forall i :: 0 <= i < |parts| ==> sep !in parts[i]
    ensures forall l :: l in TrimEach(parts) ==> sep !in l && l == Trim(l)
  {
    var t := TrimEach(parts);
    forall i | 0 <= i < |t|
      ensures sep !in t[i] && t[i] == Trim(t[i])
    {
      TrimmedPiece(parts[i], sep);
    }
  }

  lemma TrimmedPiece(p: string, sep: char)
    requires sep !in p
    ensures sep !in Trim(p) && Trim(Trim(p)) == Trim(p)
  {
    TrimKeepsChars(p);
    TrimUnchanged(Trim(p));
  }

  /** `s.split(sep)` for a one-character separator. */
  function Split(s: string, sep: char): (parts: seq<string>)
    ensures |parts| >= 1
    ensures forall i :: 0 <= i < |parts| ==> sep !in parts[i]
  {
    if s == [] then [""]
    else
      var rest := Split(s[1..], sep);
      if s[0] == sep then [""] + rest
      else [[s[0]] + rest[0]] + rest[1..]
  }

  /** `parts.join(sep)`. */
  function Join(parts: seq<string>, sep: string): string
  {
    if |parts| == 0 then ""
    else if |parts| == 1 then parts[0]
    else parts[0] + sep + Join(parts[1..], sep)
  }

  lemma JoinFront(a: string, b: string, tail: seq<string>, sep: string)
    ensures Join([a + b] + tail, sep) == a + Join([b] + tail, sep)
  {
    if tail != [] {
      assert ([a + b] + tail)[1..] == tail;
      assert ([b] + tail)[1..] == tail;
    }
  }

  /** Joining one more piece appends the separator and the piece. */
  lemma {:induction false} JoinSnoc(parts: seq<string>, sep: string, last: string)
    requires parts != []
    ensures Join(parts + [last], sep) == Join(parts, sep) + sep + last
    decreases |parts|
  {
    if |parts| > 1 {
      assert (parts + [last])[1..] == parts[1..] + [last];
      JoinSnoc(parts[1..], sep, last);
    }
  }

  /** Every piece occurs in the joined text, all at once. */
  lemma JoinContainsAll(parts: seq<string>, sep: string)
    ensures forall i :: 0 <= i < |parts| ==> Contains(Join(parts, sep), parts[i])
  {
    forall i | 0 <= i < |parts|
      ensures Contains(Join(parts, sep), parts[i])
    {
      JoinContains(parts, sep, i);
    }
  }

  /** Every piece occurs in the joined text. */
  lemma {:induction false} JoinContains(parts: seq<string>, sep: string, i: nat)
    requires i < |parts|
    ensures Contains(Join(parts, sep), parts[i])
    decreases |parts|
  {
    if |parts| == 1 {
      ContainsBetween([], parts[0], []);
      assert [] + parts[0] + [] == parts[0];
    } else if i == 0 {
      ContainsBetween([], parts[0], sep + Join(parts[1..], sep));
      assert [] + parts[0] + (sep + Join(parts[1..], sep)) == Join(parts, sep);
    } else {
      JoinContains(parts[1..], sep, i - 1);
      ContainsConcat(parts[0] + sep, Join(parts[1..], sep), parts[i]);
      assert parts[0] + sep + Join(parts[1..], sep) == Join(parts, sep);
    }
  }

  /** Joining the pieces of a split with the separator gives the text back. */
  lemma {:induction false} JoinSplit(s: string, sep: char)
    ensures Join(Split(s, sep), [sep]) == s
  {
    if s != [] {
      var rest := Split(s[1..], sep);
      JoinSplit(s[1..], sep);
      if s[0] == sep {
        assert ([""] + rest)[1..] == rest;
      } else {
        JoinFront([s[0]], rest[0], rest[1..], [sep]);
        assert [rest[0]] + rest[1..] == rest;
      }
    }
  }

  lemma {:induction false} SplitWithoutSeparator(x: string, sep: char)
    requires sep !in x
    ensures Split(x, sep) == [x]
  {
    if x != [] {
      SplitWithoutSeparator(x[1..], sep);
      assert [x[0]] + x[1..] == x;
    }
  }

  lemma {:induction false} SplitAtSeparator(x: string, rest: string, sep: char)
    requires sep !in x
    ensures Split(x + [sep] + rest, sep) == [x] + Split(rest, sep)
  {
    var s := x + [sep] + rest;
    if x == [] {
      assert s[1..] == rest;
    } else {
      assert s[1..] == x[1..] + [sep] + rest;
      SplitAtSeparator(x[1..], rest, sep);
      assert [x[0]] + x[1..] == x;
    }
  }

  /** A separator splits the text into the pieces of either side. */
  lemma {:induction false} SplitConcat(a: string, b: string, sep: char)
    ensures Split(a + [sep] + b, sep) == Split(a, sep) + Split(b, sep)
  {
    var s := a + [sep] + b;
    if a == [] {
      assert s[1..] == b;
    } else {
      assert s[1..] == a[1..] + [sep] + b;
      SplitConcat(a[1..], b, sep);
    }
  }

  /** Splitting a join of separator-free pieces gives the pieces back. */
  lemma {:induction false} SplitJoin(parts: seq<string>, sep: char)
    requires |parts| >= 1
    requires forall i :: 0 <= i < |parts| ==> sep !in parts[i]
    ensures Split(Join(parts, [sep]), sep) == parts
  {
    if |parts| == 1 {
      SplitWithoutSeparator(parts[0], sep);
    } else {
      SplitJoin(parts[1..], sep);
      SplitAtSeparator(parts[0], Join(parts[1..], [sep]), sep);
      assert [parts[0]] + parts[1..] == parts;
    }
  }

  /**
   * `s.replace(/pat/g, value)` scanning from index `i`, for a pattern that matches
   * `pat` literally and a replacement inserted verbatim: leftmost matches, no overlap.
   */
  function ReplaceFrom(s: string, pat: string, value: string, i: nat): string
    requires |pat| > 0 && i <= |s|
    decreases |s| - i
  {
    if i + |pat| > |s| then s[i..]
    else if OccursAt(s, pat, i) then value + ReplaceFrom(s, pat, value, i + |pat|)
    else [s[i]] + ReplaceFrom(s, pat, value, i + 1)
  }

  function ReplaceAll(s: string, pat: string, value: string): string
    requires |pat| > 0
  {
    ReplaceFrom(s, pat, value, 0)
  }

  /** Text without the pattern is left unchanged. */
  lemma {:induction false} ReplaceAbsent(s: string, pat: string, value: string, i: nat)
    requires |pat| > 0 && i <= |s|
    requires forall k: nat :: i <= k ==> !OccursAt(s, pat, k)
    ensures ReplaceFrom(s, pat, value, i) == s[i..]
    decreases |s| - i
  {
    if i + |pat| <= |s| {
      ReplaceAbsent(s, pat, value, i + 1);
    }
  }

  /**
   * The replacement text that `String.prototype.replace` inserts for one match of a
   * pattern without capture groups: `$$`, `$&`, `` $` `` and `$'` are expanded to `$`,
   * the match, the text before it and the text after it; any other `$` stays.
   */
  function ExpandReplacement(value: string, matched: string, before: string, after: string): string
    decreases |value|
  {
    if value == [] then []
    else if value[0] == '$' && |value| >= 2 && value[1] in "$&`'" then
      (if value[1] == '$' then "$" else if value[1] == '&' then matched
       else if value[1] == '`' then before else after)
      + ExpandReplacement(value[2..], matched, before, after)
    else [value[0]] + ExpandReplacement(value[1..], matched, before, after)
  }

  /** `s.replace(/pat/g, value)` from index `i`, with `value` read as a replacement pattern. */
  function ReplaceFromExpanding(s: string, pat: string, value: string, i: nat): string
    requires |pat| > 0 && i <= |s|
    decreases |s| - i
  {
    if i + |pat| > |s| then s[i..]
    else if OccursAt(s, pat, i) then
      ExpandReplacement(value, pat, s[..i], s[i + |pat|..]) + ReplaceFromExpanding(s, pat, value, i + |pat|)
    else [s[i]] + ReplaceFromExpanding(s, pat, value, i + 1)
  }

  function ReplaceAllExpanding(s: string, pat: string, value: string): string
    requires |pat| > 0
  {
    ReplaceFromExpanding(s, pat, value, 0)
  }

  lemma {:induction false} ExpandWithoutDollar(value: string, matched: string, before: string, after: string)
    requires '$' !in value
    ensures ExpandReplacement(value, matched, before, after) == value
  {
    if value != [] {
      assert value[0] != '$';
      ExpandWithoutDollar(value[1..], matched, before, after);
    }
  }

  /** Without a `$` in the replacement both readings of `replace` agree. */
  lemma {:induction false} ReplaceExpandingAgrees(s: string, pat: string, value: string, i: nat)
    requires |pat| > 0 && i <= |s| && '$' !in value
    ensures ReplaceFromExpanding(s, pat, value, i) == ReplaceFrom(s, pat, value, i)
    decreases |s| - i
  {
    if i + |pat| <= |s| {
      if OccursAt(s, pat, i) {
        ExpandingMatch(s, pat, value, i);
        ReplaceExpandingAgrees(s, pat, value, i + |pat|);
      } else {
        ReplaceExpandingAgrees(s, pat, value, i + 1);
      }
    }
  }

  /** At a match, a replacement without `$` is inserted as it is. */
  lemma ExpandingMatch(s: string, pat: string, value: string, i: nat)
    requires |pat| > 0 && i + |pat| <= |s| && OccursAt(s, pat, i) && '$' !in value
    ensures ReplaceFromExpanding(s, pat, value, i) == value + ReplaceFromExpanding(s, pat, value, i + |pat|)
  {
    ExpandWithoutDollar(value, pat, s[..i], s[i + |pat|..]);
  }

  /** `xs.filter(keep)`. */
  function Filter<T(!new)>(xs: seq<T>, keep: T -> bool): (r: seq<T>)
    ensures |r| <= |xs|
    ensures forall x :: x in r <==> x in xs && keep(x)
  {
    if xs == [] then []
    else (if keep(xs[0]) then [xs[0]] else []) + Filter(xs[1..], keep)
  }

  /** The first element is kept or dropped, then the rest is filtered. */
  lemma FilterCons<T(!new)>(x: T, xs: seq<T>, keep: T -> bool)
    ensures Filter([x] + xs, keep) == (if keep(x) then [x] else []) + Filter(xs, keep)
  {
    assert ([x] + xs)[1..] == xs;
  }

  /** Filtering with a test every element passes keeps everything. */
  lemma {:induction false} FilterAll<T(!new)>(xs: seq<T>, keep: T -> bool)
    requires forall x :: x in xs ==> keep(x)
    ensures Filter(xs, keep) == xs
  {
    if xs != [] {
      assert forall x :: x in xs[1..] ==> x in xs;
      FilterAll(xs[1..], keep);
      assert [xs[0]] + xs[1..] == xs;
    }
  }

  /** Filtering distributes over concatenation. */
  lemma {:induction false} FilterConcat<T(!new)>(a: seq<T>, b: seq<T>, keep: T -> bool)
    ensures Filter(a + b, keep) == Filter(a, keep) + Filter(b, keep)
  {
    if a != [] {
      assert (a + b)[1..] == a[1..] + b;
      FilterConcat(a[1..], b, keep);
    } else {
      assert a + b == b;
    }
  }

  /** `a` is `b` with some elements left out, the rest in the same order. */
  predicate IsSubsequence<T(==)>(a: seq<T>, b: seq<T>)
    decreases |b|
  {
    if b == [] then a == []
    else (a != [] && a[0] == b[0] && IsSubsequence(a[1..], b[1..])) || IsSubsequence(a, b[1..])
  }

  /** `filter` keeps a subsequence of its input. */
  lemma {:induction false} FilterIsSubsequence<T(!new)>(xs: seq<T>, keep: T -> bool)
    ensures IsSubsequence(Filter(xs, keep), xs)
  {
    if xs != [] {
      FilterIsSubsequence(xs[1..], keep);
      if keep(xs[0]) {
        assert Filter(xs, keep)[1..] == Filter(xs[1..], keep);
      } else {
        assert Filter(xs, keep) == Filter(xs[1..], keep);
      }
    }
  }

  /** `Array.from(new Set(xs))`: each value once, at its first occurrence, in order. */
  function Dedup<T(==,!new)>(xs: seq<T>): (r: seq<T>)
    ensures forall x :: x in r <==> x in xs
    ensures forall i, j :: 0 <= i < j < |r| ==> r[i] != r[j]
  {
    if xs == [] then []
    else
      var d := Dedup(xs[..|xs| - 1]);
      assert forall x :: x in xs <==> x in xs[..|xs| - 1] || x == xs[|xs| - 1] by {
        assert xs == xs[..|xs| - 1] + [xs[|xs| - 1]];
      }
      if xs[|xs| - 1] in d then d else d + [xs[|xs| - 1]]
  }

  /** Values seen first keep their places: the de-duplication of `a` starts that of `a + b`. */
  lemma {:induction false} DedupPrefix<T(!new)>(a: seq<T>, b: seq<T>)
    ensures |Dedup(a)| <= |Dedup(a + b)| && Dedup(a + b)[..|Dedup(a)|] == Dedup(a)
    decreases |b|
  {
    if b == [] {
      assert a + b == a;
    } else {
      var b' := b[..|b| - 1];
      DedupPrefix(a, b');
      assert (a + b)[..|a + b| - 1] == a + b';
    }
  }

  /** A list without repeated values is its own de-duplication. */
  lemma {:induction false} DedupDistinct<T(!new)>(xs: seq<T>)
    requires forall i, j :: 0 <= i < j < |xs| ==> xs[i] != xs[j]
    ensures Dedup(xs) == xs
  {
    if xs != [] {
      var init := xs[..|xs| - 1];
      DedupDistinct(init);
      assert xs[|xs| - 1] !in init;
      assert init + [xs[|xs| - 1]] == xs;
    }
  }

  /** Values listed once at the front stay at the front, in their order. */
  lemma DedupKeepsDistinctPrefix<T(!new)>(a: seq<T>, b: seq<T>)
    requires forall i, j :: 0 <= i < j < |a| ==> a[i] != a[j]
    ensures |Dedup(a + b)| >= |a| && Dedup(a + b)[..|a|] == a
  {
    DedupDistinct(a);
    DedupPrefix(a, b);
  }
}

/**
 * The few Python `str` operations the bot relies on, stated over `string`
 * (a sequence of Unicode scalar values, as Python's `str` indexes code points):
 * `isspace`, `strip`, `lower`, `replace`, `split`, `join`, slicing, `str(int)`
 * and `int(str)`.
 */
module Text {
  import opened Wrappers

  // ---------------------------------------------------------------------
  // Whitespace and strip()
  // ---------------------------------------------------------------------

  /** Python's `str.isspace()` on one character: the Unicode White_Space
      characters together with U+001C..U+001F, which CPython also strips. */
  predicate IsSpace(c: char)
  {
    || ('\t' <= c <= '\r')
    || ('\U{1C}' <= c <= ' ')
    || c == '\U{85}' || c == '\U{A0}' || c == '\U{1680}'
    || ('\U{2000}' <= c <= '\U{200A}')
    || c == '\U{2028}' || c == '\U{2029}' || c == '\U{202F}' || c == '\U{205F}'
    || c == '\U{3000}'
  }

  predicate AllSpace(s: string)
  {
    forall k :: 0 <= k < |s| ==> IsSpace(s[k])
  }

  /** `s.lstrip()`: the suffix of `s` left after dropping leading whitespace. */
  function TrimStart(s: string): (r: string)
    ensures |r| <= |s| && r == s[|s| - |r|..]
    ensures AllSpace(s[..|s| - |r|])
    ensures r == [] || !IsSpace(r[0])
  {
    if s != [] && IsSpace(s[0]) then
      var r := TrimStart(s[1..]);
      TrimStartStep(s, r);
      r
    else s
  }

  lemma TrimStartStep(s: string, r: string)
    requires s != [] && IsSpace(s[0])
    requires |r| <= |s| - 1 && r == s[1..][|s| - 1 - |r|..] && AllSpace(s[1..][..|s| - 1 - |r|])
    ensures r == s[|s| - |r|..] && AllSpace(s[..|s| - |r|])
  {
    var n := |s| - |r|;
    assert s[1..][n - 1..] == s[n..];
    forall k | 0 <= k < n
      ensures IsSpace(s[..n][k])
    {
      if k > 0 {
        assert s[..n][k] == s[1..][..n - 1][k - 1];
      }
    }
  }

  /** `s.rstrip()`: the prefix of `s` left after dropping trailing whitespace. */
  function TrimEnd(s: string): (r: string)
    ensures |r| <= |s| && r == s[..|r|]
    ensures AllSpace(s[|r|..])
    ensures r == [] || !IsSpace(r[|r| - 1])
  {
    if s != [] && IsSpace(s[|s| - 1]) then
      var r := TrimEnd(s[..|s| - 1]);
      TrimEndStep(s, r);
      r
    else s
  }

  lemma TrimEndStep(s: string, r: string)
    requires s != [] && IsSpace(s[|s| - 1])
    requires |r| <= |s| - 1 && r == s[..|s| - 1][..|r|] && AllSpace(s[..|s| - 1][|r|..])
    ensures r == s[..|r|] && AllSpace(s[|r|..])
  {
    var m := |r|;
    assert s[..|s| - 1][..m] == s[..m];
    forall k | 0 <= k < |s| - m
      ensures IsSpace(s[m..][k])
    {
      if k < |s| - 1 - m {
        assert s[m..][k] == s[..|s| - 1][m..][k];
      }
    }
  }

  /** `s.strip()`: no whitespace at either end, only characters of `s`, and
      text without surrounding whitespace is returned as it is
      (`StripShape` says where in `s` the result sits). */
  function Strip(s: string): (r: string)
    ensures |r| <= |s|
    ensures r == [] || (!IsSpace(r[0]) && !IsSpace(r[|r| - 1]))
    ensures forall c :: c in r ==> c in s
    ensures (s == [] || (!IsSpace(s[0]) && !IsSpace(s[|s| - 1]))) ==> r == s
  {
    var t := TrimStart(s);
    var r := TrimEnd(t);
    StripSlice(s, t, r);
    StripKeeps(s);
    r
  }

  /** The stripped text is a slice of `s` with only whitespace around it. */
  lemma StripShape(s: string)
    ensures exists i :: 0 <= i <= |s| - |Strip(s)| && StrippedAt(s, Strip(s), i)
  {
    var t := TrimStart(s);
    var r := TrimEnd(t);
    assert Strip(s) == r;
    StripSlice(s, t, r);
    assert StrippedAt(s, r, |s| - |t|);
  }

  /** `r` sits in `s` at index `i` with only whitespace before and after it. */
  predicate StrippedAt(s: string, r: string, i: nat)
  {
    && i + |r| <= |s|
    && r == s[i..i + |r|]
    && AllSpace(s[..i])
    && AllSpace(s[i + |r|..])
  }

  /** Text with no whitespace at either end is its own strip. */
  lemma StripKeeps(s: string)
    ensures (s == [] || (!IsSpace(s[0]) && !IsSpace(s[|s| - 1]))) ==> TrimEnd(TrimStart(s)) == s
  {
    if s != [] && !IsSpace(s[0]) && !IsSpace(s[|s| - 1]) {
      TrimStartKeeps(s);
      TrimEndKeeps(s);
    }
  }

  /** The facts of `lstrip` then `rstrip`, put together. */
  lemma StripSlice(s: string, t: string, r: string)
    requires |t| <= |s| && t == s[|s| - |t|..] && AllSpace(s[..|s| - |t|])
    requires t == [] || !IsSpace(t[0])
    requires |r| <= |t| && r == t[..|r|] && AllSpace(t[|r|..])
    requires r == [] || !IsSpace(r[|r| - 1])
    ensures StrippedAt(s, r, |s| - |t|)
    ensures forall c :: c in r ==> c in s
    ensures r == [] || (!IsSpace(r[0]) && !IsSpace(r[|r| - 1]))
  {
    SliceChars(s, r, |s| - |t|);
    if r != [] {
      assert r[0] == t[0];
    }
    assert StrippedAt(s, r, |s| - |t|);
    var i := |s| - |t|;
    forall k | 0 <= k < |r|
      ensures s[i..i + |r|][k] == r[k]
    {
      assert r[k] == t[k] == s[i + k];
    }
    assert s[i + |r|..] == t[|r|..];
  }

  /** A slice holds only characters of the whole. */
  lemma SliceChars(s: string, r: string, i: nat)
    requires i + |r| <= |s| && r == s[i..i + |r|]
    ensures forall c :: c in r ==> c in s
  {
    forall c | c in r
      ensures c in s
    {
      var k :| 0 <= k < |r| && r[k] == c;
      assert s[i + k] == c;
    }
  }

  lemma TrimStartKeeps(s: string)
    requires s != [] && !IsSpace(s[0])
    ensures TrimStart(s) == s
  {
  }

  lemma TrimEndKeeps(s: string)
    requires s != [] && !IsSpace(s[|s| - 1])
    ensures TrimEnd(s) == s
  {
  }

  // ---------------------------------------------------------------------
  // lower()
  // ---------------------------------------------------------------------

  /** Lower-casing of one character, restricted to the ASCII letters. */
  function LowerChar(c: char): char
  {
    if 'A' <= c <= 'Z' then (c as int + 32) as char else c
  }

  /** `s.lower()` on the ASCII letters; every other character is kept. */
  function Lower(s: string): (r: string)
    ensures |r| == |s|
  {
    if s == [] then [] else [LowerChar(s[0])] + Lower(s[1..])
  }

  // ---------------------------------------------------------------------
  // replace()
  // ---------------------------------------------------------------------

  /** Whether `pat` occurs in `s` starting at index `i`. */
  predicate OccursAt(s: string, pat: string, i: nat)
  {
    i + |pat| <= |s| && s[i..i + |pat|] == pat
  }

  /** `s.replace(pat, rep)` for a non-empty `pat`: every leftmost,
      non-overlapping occurrence of `pat`, scanning left to right, becomes `rep`. */
  function Replace(s: string, pat: string, rep: string): string
    requires pat != []
    decreases |s|
  {
    if |s| < |pat| then s
    else if s[..|pat|] == pat then rep + Replace(s[|pat|..], pat, rep)
    else [s[0]] + Replace(s[1..], pat, rep)
  }

  /** Replacing introduces no character that is neither in `s` nor in `rep`. */
  lemma {:induction false} ReplaceChars(s: string, pat: string, rep: string)
    requires pat != []
    ensures forall c :: c in Replace(s, pat, rep) ==> c in s || c in rep
    decreases |s|
  {
    if |s| < |pat| {
    } else if s[..|pat|] == pat {
      ReplaceChars(s[|pat|..], pat, rep);
    } else {
      ReplaceChars(s[1..], pat, rep);
    }
  }

  /** Replacing by something no longer than the pattern never lengthens. */
  lemma {:induction false} ReplaceNoLonger(s: string, pat: string, rep: string)
    requires pat != [] && |rep| <= |pat|
    ensures |Replace(s, pat, rep)| <= |s|
    decreases |s|
  {
    if |s| < |pat| {
    } else if s[..|pat|] == pat {
      ReplaceNoLonger(s[|pat|..], pat, rep);
    } else {
      ReplaceNoLonger(s[1..], pat, rep);
    }
  }

  /** Removing a single character removes every copy of it. */
  lemma {:induction false} RemoveCharGone(s: string, c: char)
    ensures c !in Replace(s, [c], [])
    decreases |s|
  {
    if |s| < 1 {
    } else if s[..1] == [c] {
      RemoveCharGone(s[1..], c);
    } else {
      assert s[0] != c by { assert s[..1] == [s[0]]; }
      RemoveCharGone(s[1..], c);
    }
  }

  /** Replacing one character by another is a character-by-character map. */
  lemma {:induction false} ReplaceCharPointwise(s: string, c: char, d: char)
    ensures |Replace(s, [c], [d])| == |s|
    ensures forall i :: 0 <= i < |s| ==>
              Replace(s, [c], [d])[i] == (if s[i] == c then d else s[i])
    decreases |s|
  {
    if |s| < 1 {
    } else {
      assert s[..1] == [s[0]];
      ReplaceCharPointwise(s[1..], c, d);
      var rest := Replace(s[1..], [c], [d]);
      assert Replace(s, [c], [d]) == [if s[0] == c then d else s[0]] + rest;
    }
  }

  /** Where `pat` does not start at the front, the first character is kept. */
  lemma ReplaceKeepsFirst(s: string, pat: string, rep: string)
    requires pat != [] && s != [] && !OccursAt(s, pat, 0)
    ensures Replace(s, pat, rep) == [s[0]] + Replace(s[1..], pat, rep)
  {
    if |s| < |pat| {
      assert |s[1..]| < |pat|;
      assert [s[0]] + s[1..] == s;
    }
  }

  lemma OccursAtTail(s: string, pat: string, i: nat)
    requires s != [] && OccursAt(s[1..], pat, i)
    ensures OccursAt(s, pat, i + 1)
  {
    assert s[1..][i..i + |pat|] == s[i + 1..i + 1 + |pat|];
  }

  /** A prefix in which no occurrence of `pat` starts passes through unchanged. */
  lemma {:induction false} ReplaceSkipsPrefix(pre: string, rest: string, pat: string, rep: string)
    requires pat != []
    requires forall i :: 0 <= i < |pre| ==> !OccursAt(pre + rest, pat, i)
    ensures Replace(pre + rest, pat, rep) == pre + Replace(rest, pat, rep)
    decreases |pre|
  {
    if pre != [] {
      var s := pre + rest;
      assert s[1..] == pre[1..] + rest;
      forall i | 0 <= i < |pre[1..]|
        ensures !OccursAt(pre[1..] + rest, pat, i)
      {
        if OccursAt(s[1..], pat, i) {
          OccursAtTail(s, pat, i);
        }
      }
      ReplaceSkipsPrefix(pre[1..], rest, pat, rep);
      assert !OccursAt(s, pat, 0);
      ReplaceKeepsFirst(s, pat, rep);
      var tail := Replace(rest, pat, rep);
      assert Replace(s[1..], pat, rep) == pre[1..] + tail;
      assert s[0] == pre[0];
      assert [pre[0]] + (pre[1..] + tail) == pre + tail;
    } else {
      assert pre + rest == rest;
    }
  }

  /** An occurrence at the front is replaced, and the scan goes on after it. */
  lemma ReplaceAtFront(pat: string, x: string, rep: string)
    requires pat != []
    ensures Replace(pat + x, pat, rep) == rep + Replace(x, pat, rep)
  {
    assert (pat + x)[..|pat|] == pat && (pat + x)[|pat|..] == x;
  }

  /** Text in which `pat` never occurs is returned unchanged. */
  lemma ReplaceAbsent(s: string, pat: string, rep: string)
    requires pat != []
    requires forall i :: 0 <= i < |s| ==> !OccursAt(s, pat, i)
    ensures Replace(s, pat, rep) == s
  {
    assert s + [] == s;
    ReplaceSkipsPrefix(s, [], pat, rep);
  }

  // ---------------------------------------------------------------------
  // split() and join()
  // ---------------------------------------------------------------------

  /** `s.split(sep)` for a one-character separator: the pieces between
      separators, empty pieces included. */
  function Split(s: string, sep: char): (parts: seq<string>)
    ensures |parts| >= 1
    ensures forall i :: 0 <= i < |parts| ==> sep !in parts[i]
  {
    if s == [] then [[]]
    else
      var rest := Split(s[1..], sep);
      if s[0] == sep then [[]] + rest
      else [[s[0]] + rest[0]] + rest[1..]
  }

  /** `sep.join(parts)`. */
  function Join(parts: seq<string>, sep: string): string
  {
    if parts == [] then []
    else if |parts| == 1 then parts[0]
    else parts[0] + sep + Join(parts[1..], sep)
  }

  /** Joining one more piece appends the separator and that piece. */
  lemma {:induction false} JoinSnoc(parts: seq<string>, x: string, sep: string)
    requires |parts| >= 1
    ensures Join(parts + [x], sep) == Join(parts, sep) + sep + x
  {
    if |parts| > 1 {
      assert (parts + [x])[1..] == parts[1..] + [x];
      JoinSnoc(parts[1..], x, sep);
    }
  }

  /** Joining two runs of pieces puts the separator between their joins. */
  lemma {:induction false} JoinAppend(a: seq<string>, b: seq<string>, sep: string)
    requires |a| >= 1 && |b| >= 1
    ensures Join(a + b, sep) == Join(a, sep) + sep + Join(b, sep)
  {
    if |a| == 1 {
      assert (a + b)[1..] == b;
    } else {
      assert (a + b)[1..] == a[1..] + b;
      JoinAppend(a[1..], b, sep);
    }
  }

  /** A block of lines between a head line and some tail lines: an empty
      block still leaves one empty line. */
  lemma FramedLines(head: string, body: seq<string>, tail: seq<string>, sep: string)
    requires |tail| >= 1
    ensures var block := if body == [] then [[]] else body;
            Join([head] + block + tail, sep) == head + sep + Join(body, sep) + sep + Join(tail, sep)
  {
    var block := if body == [] then [[]] else body;
    assert Join(block, sep) == Join(body, sep);
    JoinAppend([head], block, sep);
    JoinAppend([head] + block, tail, sep);
  }

  /** A message made of a head line, a block of lines, a blank line and a
      last line splits back into exactly those lines. */
  lemma FramedSplit(head: string, body: seq<string>, last: string, sep: char)
    requires sep !in head && sep !in last
    requires forall i :: 0 <= i < |body| ==> sep !in body[i]
    ensures Split(head + [sep] + Join(body, [sep]) + [sep, sep] + last, sep)
              == [head] + (if body == [] then [[]] else body) + [[], last]
  {
    var block: seq<string> := if body == [] then [[]] else body;
    var parts := [head] + block + [[], last];
    forall i | 0 <= i < |parts|
      ensures sep !in parts[i]
    {
      if i == 0 {
        assert parts[i] == head;
      } else if i <= |block| {
        assert parts[i] == block[i - 1];
      } else {
        assert parts[i] == [] || parts[i] == last;
      }
    }
    SplitJoin(parts, sep);
    FramedLines(head, body, [[], last], [sep]);
    DoubleSeparator(head + [sep] + Join(body, [sep]), sep, last);
  }

  /** Two separators in a row are one separator before an empty piece. */
  lemma DoubleSeparator(front: string, sep: char, last: string)
    ensures Join([[], last], [sep]) == [sep] + last
    ensures front + [sep, sep] + last == front + [sep] + Join([[], last], [sep])
  {
    assert [sep, sep] + last == [sep] + ([sep] + last);
  }

  /** There is one more piece than there are separators. */
  lemma {:induction false} SplitCount(s: string, sep: char)
    ensures |Split(s, sep)| == multiset(s)[sep] + 1
  {
    if s != [] {
      assert s == [s[0]] + s[1..];
      assert multiset(s) == multiset([s[0]]) + multiset(s[1..]);
      SplitCount(s[1..], sep);
    }
  }

  /** Joining the pieces with the separator gives the text back. */
  lemma {:induction false} JoinSplit(s: string, sep: char)
    ensures Join(Split(s, sep), [sep]) == s
  {
    if s != [] {
      var rest := Split(s[1..], sep);
      JoinSplit(s[1..], sep);
      if s[0] == sep {
        assert ([[]] + rest)[1..] == rest;
        assert s == [sep] + s[1..];
      } else if |rest| == 1 {
        assert s == [s[0]] + s[1..];
      } else {
        var parts := [[s[0]] + rest[0]] + rest[1..];
        assert parts[1..] == rest[1..];
        assert Join(rest, [sep]) == rest[0] + [sep] + Join(rest[1..], [sep]);
        assert s == [s[0]] + s[1..];
      }
    }
  }

  /** Text without the separator in front of `t` is glued to `t`'s first piece. */
  lemma {:induction false} SplitPrepend(a: string, t: string, sep: char)
    requires sep !in a
    ensures Split(a + t, sep) == [a + Split(t, sep)[0]] + Split(t, sep)[1..]
  {
    if a != [] {
      SplitPrepend(a[1..], t, sep);
      assert (a + t)[1..] == a[1..] + t;
      assert [a[0]] + (a[1..] + Split(t, sep)[0]) == a + Split(t, sep)[0];
    } else {
      var sp := Split(t, sep);
      assert [] + t == t;
      assert [] + sp[0] == sp[0];
      assert [sp[0]] + sp[1..] == sp;
    }
  }

  /** Splitting joined pieces that hold no separator gives the pieces back. */
  lemma {:induction false} SplitJoin(parts: seq<string>, sep: char)
    requires |parts| >= 1
    requires forall i :: 0 <= i < |parts| ==> sep !in parts[i]
    ensures Split(Join(parts, [sep]), sep) == parts
  {
    if |parts| == 1 {
      SplitPrepend(parts[0], [], sep);
      assert parts[0] + [] == parts[0];
    } else {
      var tail := Join(parts[1..], [sep]);
      SplitJoin(parts[1..], sep);
      assert Join(parts, [sep]) == parts[0] + ([sep] + tail);
      SplitPrepend(parts[0], [sep] + tail, sep);
      assert ([sep] + tail)[1..] == tail;
      assert parts[0] + [] == parts[0];
      assert [parts[0]] + parts[1..] == parts;
    }
  }

  /** `s.split(sep)[-1]`: the text after the last separator, which is all
      of `s` when it has none. */
  function LastPiece(s: string, sep: char): (r: string)
    ensures sep !in r
    ensures |r| <= |s| && r == s[|s| - |r|..]
    ensures |r| < |s| ==> s[|s| - |r| - 1] == sep
    ensures sep !in s ==> r == s
  {
    if s == [] || s[|s| - 1] == sep then []
    else
      var r := LastPiece(s[..|s| - 1], sep);
      LastPieceStep(s, sep, r);
      r + [s[|s| - 1]]
  }

  lemma LastPieceStep(s: string, sep: char, r: string)
    requires s != [] && s[|s| - 1] != sep
    requires sep !in r && |r| <= |s| - 1 && r == s[..|s| - 1][|s| - 1 - |r|..]
    requires |r| < |s| - 1 ==> s[..|s| - 1][|s| - 1 - |r| - 1] == sep
    ensures sep !in r + [s[|s| - 1]]
    ensures r + [s[|s| - 1]] == s[|s| - |r| - 1..]
    ensures |r| + 1 < |s| ==> s[|s| - |r| - 2] == sep
  {
    assert s[..|s| - 1][|s| - 1 - |r|..] + [s[|s| - 1]] == s[|s| - |r| - 1..];
  }

  // ---------------------------------------------------------------------
  // Slicing
  // ---------------------------------------------------------------------

  /** Python's `s[:n]` for `n >= 0`. */
  function Take<T>(s: seq<T>, n: nat): (r: seq<T>)
    ensures |r| == (if |s| <= n then |s| else n) && r == s[..|r|]
  {
    if |s| <= n then s else s[..n]
  }

  /** Python's `s[lo:hi]` for `0 <= lo`, both bounds clipped to the length. */
  function Slice<T>(s: seq<T>, lo: nat, hi: nat): (r: seq<T>)
    ensures |r| == if lo < hi && lo < |s| then (if hi < |s| then hi else |s|) - lo else 0
    ensures forall j :: 0 <= j < |r| ==> lo + j < |s| && r[j] == s[lo + j]
  {
    var a := if lo < |s| then lo else |s|;
    var b := if hi < |s| then hi else |s|;
    if a <= b then s[a..b] else []
  }

  // ---------------------------------------------------------------------
  // str(int) and int(str)
  // ---------------------------------------------------------------------

  predicate IsDigit(c: char)
  {
    '0' <= c <= '9'
  }

  function DigitChar(d: nat): char
    requires d < 10
  {
    ('0' as int + d) as char
  }

  function DigitValue(c: char): nat
    requires IsDigit(c)
  {
    c as int - '0' as int
  }

  /** `str(n)` for a natural number: decimal digits, no leading zero. */
  function NatToString(n: nat): (r: string)
    ensures |r| >= 1
    ensures forall i :: 0 <= i < |r| ==> IsDigit(r[i])
    ensures |r| > 1 ==> r[0] != '0'
  {
    if n < 10 then [DigitChar(n)] else NatToString(n / 10) + [DigitChar(n % 10)]
  }

  /** `str(n)`. */
  function IntToString(n: int): (r: string)
    ensures forall i :: 0 <= i < |r| ==> IsDigit(r[i]) || r[i] == '-'
  {
    if n < 0 then "-" + NatToString(-n) else NatToString(n)
  }

  /** A numeral holds no character other than digits and the minus sign. */
  lemma NumeralWithout(n: int, c: char)
    requires !IsDigit(c) && c != '-'
    ensures c !in IntToString(n)
  {
  }

  /** The digit strings Python's `int()` accepts after the sign: decimal digits,
      optionally grouped by single underscores between two digits. */
  predicate IsDigitRun(s: string)
  {
    && |s| >= 1
    && IsDigit(s[0]) && IsDigit(s[|s| - 1])
    && (forall i :: 0 <= i < |s| ==> IsDigit(s[i]) || s[i] == '_')
    && (forall i :: 0 <= i < |s| - 1 ==> s[i] == '_' ==> s[i + 1] != '_')
  }

  /** The value of a run of digits, underscores ignored. */
  function RunValue(s: string): nat
  {
    if s == [] then 0
    else
      var last := s[|s| - 1];
      if IsDigit(last) then RunValue(s[..|s| - 1]) * 10 + DigitValue(last)
      else RunValue(s[..|s| - 1])
  }

  /** The information separators U+001C..U+001F: `str.isspace()` holds for
      them, yet `int()` neither skips them nor reads them as anything. */
  predicate IsInfoSeparator(c: char)
  {
    '\U{1C}' <= c <= '\U{1F}'
  }

  /** The whitespace `int()` skips around the number: ASCII `\t` to `\r` and
      the space, plus every non-ASCII `str.isspace()` character, which
      `int()` first turns into a space. */
  predicate IsIntSpace(c: char)
  {
    IsSpace(c) && !IsInfoSeparator(c)
  }

  /** The number of digits `int()` reads from a text without a
      `sys.set_int_max_str_digits` call: CPython refuses more. */
  const MaxStrDigits: nat := 4300

  /** The number of digits in a text; underscores and other characters do
      not count. */
  function DigitCount(s: string): nat
  {
    if s == [] then 0
    else DigitCount(s[..|s| - 1]) + (if IsDigit(s[|s| - 1]) then 1 else 0)
  }

  /** The digits after an optional sign. */
  function Unsigned(t: string): string
  {
    if t != [] && (t[0] == '+' || t[0] == '-') then t[1..] else t
  }

  /** `str(n)` has at most the 4300 digits `int()` reads back. */
  predicate Printable(n: int)
  {
    |NatToString(if n < 0 then -n else n)| <= MaxStrDigits
  }

  lemma SmallPrintable(n: int)
    requires -10 < n < 10
    ensures Printable(n)
  {
  }

  /** `int(s)` in base 10: surrounding whitespace, an optional sign, then a
      digit run of at most 4300 digits; `None` where Python raises
      `ValueError`. An information separator anywhere makes it fail, as it
      is neither whitespace to `int()` nor a digit or sign. */
  function ParseInt(s: string): (r: Option<int>)
    ensures r.Some? ==> forall i :: 0 <= i < |s| ==> !IsInfoSeparator(s[i])
    ensures r.Some? ==>
              var t := Strip(s);
              && t != []
              && (forall i :: 0 <= i < |t| ==> IsDigit(t[i]) || t[i] == '+' || t[i] == '-' || t[i] == '_')
              && (r.value < 0 ==> t[0] == '-')
    ensures r.Some? ==>
              var digits := Unsigned(Strip(s));
              && IsDigitRun(digits) && DigitCount(digits) <= MaxStrDigits
              && (r.value == RunValue(digits) || -r.value == RunValue(digits))
  {
    if exists i :: 0 <= i < |s| && IsInfoSeparator(s[i]) then None
    else ParseSigned(Strip(s))
  }

  /** `int()` on text already stripped: an optional sign, then a digit run. */
  function ParseSigned(t: string): (r: Option<int>)
    ensures r.Some? ==>
              && t != []
              && (forall i :: 0 <= i < |t| ==> IsDigit(t[i]) || t[i] == '+' || t[i] == '-' || t[i] == '_')
              && (r.value < 0 ==> t[0] == '-')
    ensures r.Some? ==>
              var digits := Unsigned(t);
              && IsDigitRun(digits) && DigitCount(digits) <= MaxStrDigits
              && (r.value == RunValue(digits) || -r.value == RunValue(digits))
  {
    var digits := Unsigned(t);
    if !IsDigitRun(digits) || DigitCount(digits) > MaxStrDigits then None
    else if digits == t then Some(RunValue(t))
    else
      assert forall i :: 1 <= i < |t| ==> t[i] == digits[i - 1];
      var v: int := RunValue(digits);
      Some(if t[0] == '-' then -v else v)
  }

  lemma {:induction false} RunValueOfNat(n: nat)
    ensures RunValue(NatToString(n)) == n
    decreases n
  {
    var s := NatToString(n);
    if n >= 10 {
      RunValueOfNat(n / 10);
      assert s[..|s| - 1] == NatToString(n / 10);
    }
  }

  lemma NatStringIsRun(n: nat)
    ensures IsDigitRun(NatToString(n))
  {
  }

  /** `int(str(n)) == n` for every integer `str()` prints within the digit
      limit. */
  lemma ParseIntShow(n: int)
    requires Printable(n)
    ensures ParseInt(IntToString(n)) == Some(n)
  {
    var m := if n < 0 then -n else n;
    var digits := NatToString(m);
    RunValueOfNat(m);
    NatStringIsRun(m);
    DigitCountAll(digits);
    var sign := if n < 0 then "-" else "";
    assert IntToString(n) == [] + sign + digits + [];
    ParseIntPadded([], sign, digits, []);
  }

  /** A text with no surrounding whitespace made of a minus and a digit
      run parses to the negated value of the run. */
  lemma ParseIntNegative(s: string, digits: string)
    requires IsDigitRun(digits) && DigitCount(digits) <= MaxStrDigits && s == "-" + digits
    ensures var v: int := RunValue(digits); ParseSigned(s) == Some(-v)
  {
    assert s[0] == '-' && s[1..] == digits;
  }

  /** A digit run with no surrounding whitespace parses to its value. */
  lemma ParseIntDigits(s: string)
    requires IsDigitRun(s) && DigitCount(s) <= MaxStrDigits
    ensures ParseSigned(s) == Some(RunValue(s))
  {
    assert IsDigit(s[0]);
  }

  /** `int()` reads an optional sign and a digit run within the digit limit,
      whatever whitespace it skips lies around them. Together with the
      contract of `ParseInt`, which says every accepted text has this
      shape, it describes `int()` on base-10 text. */
  lemma ParseIntPadded(pre: string, sign: string, digits: string, post: string)
    requires forall i :: 0 <= i < |pre| ==> IsIntSpace(pre[i])
    requires forall i :: 0 <= i < |post| ==> IsIntSpace(post[i])
    requires sign == "" || sign == "+" || sign == "-"
    requires IsDigitRun(digits) && DigitCount(digits) <= MaxStrDigits
    ensures var v: int := RunValue(digits);
            ParseInt(pre + sign + digits + post) == Some(if sign == "-" then -v else v)
  {
    var body := sign + digits;
    assert pre + sign + digits + post == pre + body + post;
    BodyShape(sign, digits);
    StripPadded(pre, body, post);
    NoSeparatorIn(pre, body);
    NoSeparatorIn(pre + body, post);
    SignedBody(sign, digits);
    StrippedParse(pre + body + post, body);
  }

  /** A sign and a digit run: no whitespace at either end and no
      information separator. */
  lemma BodyShape(sign: string, digits: string)
    requires sign == "" || sign == "+" || sign == "-"
    requires IsDigitRun(digits)
    ensures var body := sign + digits;
            && body != [] && !IsSpace(body[0]) && !IsSpace(body[|body| - 1])
            && forall i :: 0 <= i < |body| ==> !IsInfoSeparator(body[i])
  {
    var body := sign + digits;
    assert body[0] == (if sign == "" then digits[0] else sign[0]);
    assert body[|body| - 1] == digits[|digits| - 1];
    assert forall i :: |sign| <= i < |body| ==> body[i] == digits[i - |sign|];
  }

  /** Text without an information separator is read from its strip. */
  lemma StrippedParse(s: string, body: string)
    requires Strip(s) == body
    requires forall i :: 0 <= i < |s| ==> !IsInfoSeparator(s[i])
    ensures ParseInt(s) == ParseSigned(body)
  {
  }

  lemma NoSeparatorIn(a: string, b: string)
    requires forall i :: 0 <= i < |a| ==> !IsInfoSeparator(a[i])
    requires forall i :: 0 <= i < |b| ==> !IsInfoSeparator(b[i])
    ensures forall i :: 0 <= i < |a + b| ==> !IsInfoSeparator((a + b)[i])
  {
  }

  /** A sign and a digit run within the limit: the run's value, negated
      after a minus. */
  lemma SignedBody(sign: string, digits: string)
    requires sign == "" || sign == "+" || sign == "-"
    requires IsDigitRun(digits) && DigitCount(digits) <= MaxStrDigits
    ensures var v: int := RunValue(digits);
            ParseSigned(sign + digits) == Some(if sign == "-" then -v else v)
  {
    var body := sign + digits;
    if sign == "" {
      assert body == digits;
      ParseIntDigits(body);
    } else if sign == "-" {
      ParseIntNegative(body, digits);
    } else {
      assert body[0] == '+' && body[1..] == digits;
    }
  }

  /** Whitespace around a text with non-whitespace ends is exactly what
      `strip()` removes. */
  lemma StripPadded(pre: string, body: string, post: string)
    requires AllSpace(pre) && AllSpace(post)
    requires body != [] && !IsSpace(body[0]) && !IsSpace(body[|body| - 1])
    ensures Strip(pre + body + post) == body
  {
    var x := body + post;
    assert pre + body + post == pre + x;
    TrimStartPad(pre, x);
    TrimEndPad(body, post);
    StripIsTrims(pre + x);
  }

  lemma StripIsTrims(s: string)
    ensures Strip(s) == TrimEnd(TrimStart(s))
  {
  }

  /** `lstrip()` removes exactly the leading whitespace. */
  lemma {:induction false} TrimStartPad(pre: string, x: string)
    requires AllSpace(pre) && (x == [] || !IsSpace(x[0]))
    ensures TrimStart(pre + x) == x
    decreases |pre|
  {
    if pre == [] {
      assert pre + x == x;
    } else {
      assert (pre + x)[1..] == pre[1..] + x;
      TrimStartPad(pre[1..], x);
    }
  }

  /** `rstrip()` removes exactly the trailing whitespace. */
  lemma {:induction false} TrimEndPad(x: string, post: string)
    requires AllSpace(post) && x != [] && !IsSpace(x[|x| - 1])
    ensures TrimEnd(x + post) == x
    decreases |post|
  {
    if post == [] {
      assert x + post == x;
    } else {
      assert (x + post)[..|x + post| - 1] == x + post[..|post| - 1];
      TrimEndPad(x, post[..|post| - 1]);
    }
  }

  /** In a text of digits only, every character counts. */
  lemma {:induction false} DigitCountAll(s: string)
    requires forall i :: 0 <= i < |s| ==> IsDigit(s[i])
    ensures DigitCount(s) == |s|
  {
    if s != [] {
      DigitCountAll(s[..|s| - 1]);
    }
  }

  /** Every element has `p` exactly when the first one and every element of
      the tail do. */
  lemma AllTail<T>(s: seq<T>, p: T -> bool)
    requires s != []
    ensures (forall i :: 0 <= i < |s| ==> p(s[i]))
            <==> p(s[0]) && (forall i :: 0 <= i < |s[1..]| ==> p(s[1..][i]))
  {
    if p(s[0]) && forall i :: 0 <= i < |s[1..]| ==> p(s[1..][i]) {
      forall i | 0 <= i < |s|
        ensures p(s[i])
      {
        if i > 0 {
          assert s[i] == s[1..][i - 1];
        }
      }
    }
  }
}

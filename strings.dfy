/** The Python `str` operations the routers use, restricted to ASCII where
    they depend on letter case. */
module Strings {

  /** `s.startswith(prefix)` */
  predicate StartsWith(s: string, prefix: string) {
    |prefix| <= |s| && s[..|prefix|] == prefix
  }

  /** `s.endswith(suffix)` */
  predicate EndsWith(s: string, suffix: string) {
    |suffix| <= |s| && s[|s| - |suffix|..] == suffix
  }

  predicate IsUpper(c: char) { 'A' <= c <= 'Z' }
  predicate IsLower(c: char) { 'a' <= c <= 'z' }
  predicate IsLetter(c: char) { IsUpper(c) || IsLower(c) }

  function LowerChar(c: char): (d: char)
    ensures IsLetter(d) == IsLetter(c) && !IsUpper(d)
  {
    if IsUpper(c) then (c as int + 32) as char else c
  }

  function UpperChar(c: char): (d: char)
    ensures IsLetter(d) == IsLetter(c) && !IsLower(d)
  {
    if IsLower(c) then (c as int - 32) as char else c
  }

  /** `s.lower()` */
  function Lower(s: string): (r: string)
    ensures |r| == |s|
    ensures forall i :: 0 <= i < |s| ==> r[i] == LowerChar(s[i])
  {
    seq(|s|, i requires 0 <= i < |s| => LowerChar(s[i]))
  }

  /** Lower-casing leaves a string without capitals unchanged. */
  lemma LowerNoUpper(s: string)
    requires forall i :: 0 <= i < |s| ==> !IsUpper(s[i])
    ensures Lower(s) == s
  {
  }

  /** `s.replace(from, to)` for one-character arguments. */
  function ReplaceChar(s: string, from: char, to: char): (r: string)
    ensures |r| == |s|
    ensures forall i :: 0 <= i < |s| ==> r[i] == if s[i] == from then to else s[i]
    ensures from != to ==> from !in r
  {
    seq(|s|, i requires 0 <= i < |s| => if s[i] == from then to else s[i])
  }

  /** `s.title()`: a letter is upper-cased when the character before it is not
      a letter and lower-cased when it is; other characters are kept. */
  function Title(s: string): string {
    TitleAfter(s, false)
  }

  /** `Title` of a string that follows a letter (`afterLetter`) or not. */
  function TitleAfter(s: string, afterLetter: bool): string {
    if s == [] then []
    else [if afterLetter then LowerChar(s[0]) else UpperChar(s[0])] + TitleAfter(s[1..], IsLetter(s[0]))
  }

  lemma {:induction false} TitleAfterLength(s: string, afterLetter: bool)
    ensures |TitleAfter(s, afterLetter)| == |s|
  {
    if s != [] {
      TitleAfterLength(s[1..], IsLetter(s[0]));
    }
  }

  lemma {:induction false} TitleAfterAt(s: string, afterLetter: bool, i: nat)
    requires i < |s|
    ensures |TitleAfter(s, afterLetter)| == |s|
    ensures TitleAfter(s, afterLetter)[i] ==
      if (if i == 0 then afterLetter else IsLetter(s[i - 1])) then LowerChar(s[i]) else UpperChar(s[i])
  {
    TitleAfterLength(s, afterLetter);
    if i > 0 {
      TitleAfterAt(s[1..], IsLetter(s[0]), i - 1);
    }
  }

  /** Character by character: position `i` of `Title(s)` is `s[i]` upper-cased
      unless `s[i - 1]` is a letter, in which case it is lower-cased. */
  lemma TitleAt(s: string, i: nat)
    requires i < |s|
    ensures |Title(s)| == |s|
    ensures Title(s)[i] == if i > 0 && IsLetter(s[i - 1]) then LowerChar(s[i]) else UpperChar(s[i])
  {
    TitleAfterAt(s, false, i);
  }

  /** Title-casing a title-cased string changes nothing. */
  lemma TitleIdempotent(s: string)
    ensures Title(Title(s)) == Title(s)
  {
    var t := Title(s);
    TitleAfterLength(s, false);
    TitleAfterLength(t, false);
    forall i | 0 <= i < |s|
      ensures Title(t)[i] == t[i]
    {
      TitleAt(s, i);
      TitleAt(t, i);
      if i > 0 {
        TitleAt(s, i - 1);
      }
    }
  }

  /** `s.rfind(c)` */
  function LastIndexOf(s: string, c: char): (i: int)
    ensures -1 <= i < |s|
    ensures 0 <= i ==> s[i] == c && c !in s[i + 1..]
    ensures i == -1 ==> c !in s
  {
    if s == [] then -1
    else if s[|s| - 1] == c then |s| - 1
    else
      assert s == s[..|s| - 1] + [s[|s| - 1]];
      LastIndexOf(s[..|s| - 1], c)
  }

  /** `s.split(sep)`: the pieces between the separators, at least one. */
  function Split(s: string, sep: char): (parts: seq<string>)
    ensures |parts| >= 1
    ensures forall k :: 0 <= k < |parts| ==> sep !in parts[k]
    decreases |s|
  {
    var i := LastIndexOf(s, sep);
    if i < 0 then [s] else Split(s[..i], sep) + [s[i + 1..]]
  }

  /** The last `c` of `a + [c] + b` is the one after `a` when `b` has none. */
  lemma LastIndexOfAt(a: string, c: char, b: string)
    requires c !in b
    ensures LastIndexOf(a + [c] + b, c) == |a|
  {
    var s := a + [c] + b;
    assert s[|a|] == c;
    assert s[|a| + 1..] == b;
  }

  /** Splitting after a last separator adds the piece behind it. */
  lemma SplitSnoc(a: string, b: string, sep: char)
    requires sep !in b
    ensures Split(a + [sep] + b, sep) == Split(a, sep) + [b]
  {
    var s := a + [sep] + b;
    LastIndexOfAt(a, sep, b);
    assert s[..|a|] == a && s[|a| + 1..] == b;
  }

  /** Splitting two separator-free pieces joined by the separator. */
  lemma SplitTwo(a: string, b: string, sep: char)
    requires sep !in a && sep !in b
    ensures Split(a + [sep] + b, sep) == [a, b]
  {
    SplitSnoc(a, b, sep);
    assert LastIndexOf(a, sep) == -1;
  }

  /** A joined list begins with its first piece. */
  lemma {:induction false} JoinWithStartsWith(parts: seq<string>, sep: char)
    requires parts != []
    ensures StartsWith(JoinWith(parts, sep), parts[0])
  {
    if |parts| > 1 {
      JoinWithStartsWith(parts[..|parts| - 1], sep);
    }
  }

  /** `sep.join(parts)` */
  function JoinWith(parts: seq<string>, sep: char): (r: string)
    ensures |parts| > 0 ==> |r| >= |parts[|parts| - 1]|
  {
    if |parts| == 0 then ""
    else if |parts| == 1 then parts[0]
    else JoinWith(parts[..|parts| - 1], sep) + [sep] + parts[|parts| - 1]
  }

  lemma JoinWithSnoc(parts: seq<string>, p: string, sep: char)
    ensures JoinWith(parts + [p], sep) == if parts == [] then p else JoinWith(parts, sep) + [sep] + p
  {
    assert (parts + [p])[..|parts|] == parts;
  }

  lemma {:induction false} JoinWithConcat(a: seq<string>, b: seq<string>, sep: char)
    requires a != [] && b != []
    ensures JoinWith(a + b, sep) == JoinWith(a, sep) + [sep] + JoinWith(b, sep)
    decreases |b|
  {
    var b', x := b[..|b| - 1], b[|b| - 1];
    assert b == b' + [x];
    assert a + b == (a + b') + [x];
    JoinWithSnoc(a + b', x, sep);
    if b' != [] {
      JoinWithConcat(a, b', sep);
      JoinWithSnoc(b', x, sep);
    }
  }

  /** Joining the pieces of a split gives the string back. */
  lemma {:induction false} SplitJoin(s: string, sep: char)
    ensures JoinWith(Split(s, sep), sep) == s
    decreases |s|
  {
    var i := LastIndexOf(s, sep);
    if i >= 0 {
      var front := Split(s[..i], sep);
      SplitJoin(s[..i], sep);
      JoinWithSnoc(front, s[i + 1..], sep);
      assert s == s[..i] + [sep] + s[i + 1..];
    }
  }

  /** The pieces of `parts` that are not in `junk`, in order (a list
      comprehension with an `if`). */
  function Without(parts: seq<string>, junk: set<string>): (r: seq<string>)
    ensures |r| <= |parts|
    ensures forall k :: 0 <= k < |r| ==> r[k] !in junk && r[k] in parts
  {
    if parts == [] then []
    else
      var last := parts[|parts| - 1];
      Without(parts[..|parts| - 1], junk) + (if last in junk then [] else [last])
  }

  /** A list with no junk in it loses nothing. */
  lemma {:induction false} WithoutNone(parts: seq<string>, junk: set<string>)
    requires forall k :: 0 <= k < |parts| ==> parts[k] !in junk
    ensures Without(parts, junk) == parts
  {
    if parts != [] {
      var front := parts[..|parts| - 1];
      assert forall k :: 0 <= k < |front| ==> front[k] == parts[k];
      WithoutNone(front, junk);
      assert parts == front + [parts[|parts| - 1]];
    }
  }

  /** Dropping pieces from one more element of a list. */
  lemma WithoutStep(parts: seq<string>, i: nat, junk: set<string>)
    requires i < |parts|
    ensures Without(parts[..i + 1], junk) == Without(parts[..i], junk) + (if parts[i] in junk then [] else [parts[i]])
  {
    assert parts[..i + 1][..i] == parts[..i];
  }

  /** The middle of `[x] + s`, `s` but its last. */
  lemma ConsDropLast(x: string, s: seq<string>)
    requires s != []
    ensures ([x] + s)[1..|s|] == s[..|s| - 1]
  {
  }

  /** An element of a list other than its last is in the list without it. */
  lemma InFront(s: seq<string>, x: string)
    requires x in s && x != s[|s| - 1]
    ensures x in s[..|s| - 1]
  {
    var i :| 0 <= i < |s| && s[i] == x;
    assert s[..|s| - 1][i] == x;
  }

  /** Python's `<=` on strings: lexicographic by code point. */
  predicate LexLe(a: string, b: string) {
    a == [] || (b != [] && (a[0] < b[0] || (a[0] == b[0] && LexLe(a[1..], b[1..]))))
  }

  lemma {:induction false} LexLeTotal(a: string, b: string)
    ensures LexLe(a, b) || LexLe(b, a)
  {
    if a != [] && b != [] && a[0] == b[0] {
      LexLeTotal(a[1..], b[1..]);
    }
  }

  lemma {:induction false} LexLeTransitive(a: string, b: string, c: string)
    requires LexLe(a, b) && LexLe(b, c)
    ensures LexLe(a, c)
  {
    if a != [] && a[0] == b[0] && b[0] == c[0] {
      LexLeTransitive(a[1..], b[1..], c[1..]);
    }
  }
}

/** Strings with the meaning of the JavaScript string methods the extension calls:
    `trim`, `toLowerCase`, `includes`, `startsWith`, `split`, `join` and the
    decimal rendering of a non-negative integer. */
module Text {

  /** The characters that JavaScript's `\s` and `String.prototype.trim` treat as white space. */
  predicate IsSpace(c: char) {
    || c == ' ' || c == '\t' || c == '\n' || c == '\r' || c == '\U{B}' || c == '\U{C}'
    || c == '\U{A0}' || c == '\U{1680}' || ('\U{2000}' <= c <= '\U{200A}')
    || c == '\U{2028}' || c == '\U{2029}' || c == '\U{202F}' || c == '\U{205F}'
    || c == '\U{3000}' || c == '\U{FEFF}'
  }

  /** No string occurs twice (the keys of a `Map` or of an object, in insertion order). */
  predicate Distinct(ks: seq<string>) {
    forall i, j :: 0 <= i < j < |ks| ==> ks[i] != ks[j]
  }

  /** Every character is white space (the empty string included). */
  predicate IsBlank(s: string) {
    forall i :: 0 <= i < |s| ==> IsSpace(s[i])
  }

  /** `s.trimStart()`: the suffix left after dropping leading white space. */
  function TrimStart(s: string): (r: string)
    ensures |r| <= |s| && r == s[|s| - |r|..]
    ensures r == [] || !IsSpace(r[0])
    ensures IsBlank(s[..|s| - |r|])
  {
    if s != [] && IsSpace(s[0]) then
      var r := TrimStart(s[1..]);
      assert s[..|s| - |r|] == [s[0]] + s[1..][..|s| - 1 - |r|];
      r
    else s
  }

  /** `s.trimEnd()`: the prefix left after dropping trailing white space. */
  function TrimEnd(s: string): (r: string)
    ensures |r| <= |s| && r == s[..|r|]
    ensures r == [] || !IsSpace(r[|r| - 1])
    ensures IsBlank(s[|r|..])
  {
    if s != [] && IsSpace(s[|s| - 1]) then
      var r := TrimEnd(s[..|s| - 1]);
      assert s[|r|..] == s[..|s| - 1][|r|..] + [s[|s| - 1]];
      r
    else s
  }

  /** `s.trim()`. */
  function Trim(s: string): string {
    TrimEnd(TrimStart(s))
  }

  /** A blank string that does not start with white space is empty. */
  lemma BlankWithoutLeadingSpace(t: string)
    requires IsBlank(t) && (t == [] || !IsSpace(t[0]))
    ensures t == []
  {
  }

  /** Trimming a trimmed string changes nothing. */
  lemma TrimIdempotent(s: string)
    ensures Trim(Trim(s)) == Trim(s)
  {
    var t := TrimStart(s);
    var u := TrimEnd(t);
    if u != [] {
      assert u[0] == t[0];
    }
    assert TrimStart(u) == u;
  }

  /** `!s.trim()` in the source: a string trims to nothing exactly when it is blank. */
  lemma TrimEmptyIffBlank(s: string)
    ensures Trim(s) == [] <==> IsBlank(s)
  {
    var t := TrimStart(s);
    if IsBlank(s) {
      BlankWithoutLeadingSpace(t);
    }
    if Trim(s) == [] {
      assert t[|Trim(s)|..] == t;
      BlankWithoutLeadingSpace(t);
      assert s[..|s|] == s;
    }
  }

  /** `c.toLowerCase()` for one character; only the ASCII letters change. */
  function LowerChar(c: char): char {
    if 'A' <= c <= 'Z' then (c as int + 32) as char else c
  }

  /** `s.toLowerCase()`, character by character. */
  function ToLower(s: string): (r: string)
    ensures |r| == |s|
  {
    if s == [] then [] else [LowerChar(s[0])] + ToLower(s[1..])
  }

  lemma {:induction false} ToLowerAppend(a: string, b: string)
    ensures ToLower(a + b) == ToLower(a) + ToLower(b)
  {
    if a != [] {
      assert (a + b)[0] == a[0] && (a + b)[1..] == a[1..] + b;
      ToLowerAppend(a[1..], b);
    } else {
      assert a + b == b;
    }
  }

  /** Lower-casing leaves a string without upper-case ASCII letters as it is. */
  lemma {:induction false} ToLowerNoUpper(s: string)
    requires forall i :: 0 <= i < |s| ==> !('A' <= s[i] <= 'Z')
    ensures ToLower(s) == s
  {
    if s != [] {
      ToLowerNoUpper(s[1..]);
    }
  }

  /** Lower-casing yields the letter `c` only from `c` itself or its upper-case form `C`. */
  lemma {:induction false} ToLowerMissing(s: string, c: char, upper: char)
    requires 'a' <= c <= 'z' && upper as int == c as int - 32
    requires c !in s && upper !in s
    ensures c !in ToLower(s)
  {
    if s != [] {
      assert s[1..] <= s[1..] && forall x :: x in s[1..] ==> x in s;
      ToLowerMissing(s[1..], c, upper);
    }
  }

  /** `s.startsWith(p)`. */
  predicate StartsWith(s: string, p: string) {
    |p| <= |s| && s[..|p|] == p
  }

  /** A prefix of a middle part, after the same head, is a prefix of the whole. */
  lemma StartsWithInside(head: string, mid: string, tail: string, p: string)
    requires StartsWith(mid, p)
    ensures StartsWith(head + mid + tail, head + p)
  {
    assert (head + mid + tail)[..|head| + |p|] == head + mid[..|p|];
  }

  /** `s.endsWith(p)`. */
  predicate EndsWith(s: string, p: string) {
    |p| <= |s| && s[|s| - |p|..] == p
  }

  /** `s.includes(p)`: `p` occurs somewhere in `s` (the empty string occurs everywhere). */
  predicate Contains(s: string, p: string)
    decreases |s|
  {
    StartsWith(s, p) || (s != [] && Contains(s[1..], p))
  }

  /** A pattern occurs only in a string at least as long. */
  lemma {:induction false} ContainsLength(s: string, p: string)
    requires Contains(s, p)
    ensures |p| <= |s|
  {
    if !StartsWith(s, p) { ContainsLength(s[1..], p); }
  }

  /** `Contains` agrees with the occurrence of `p` at some offset of `s`. */
  lemma {:induction false} ContainsAt(s: string, p: string, i: nat)
    requires i + |p| <= |s| && s[i..i + |p|] == p
    ensures Contains(s, p)
  {
    if i > 0 {
      assert s[1..][i - 1..i - 1 + |p|] == s[i..i + |p|];
      ContainsAt(s[1..], p, i - 1);
    }
  }

  /** A pattern with a character the string lacks does not occur in it. */
  lemma {:induction false} MissingCharNotContained(s: string, p: string, c: char)
    requires c in p && c !in s
    ensures !Contains(s, p)
  {
    var k :| 0 <= k < |p| && p[k] == c;
    if |p| <= |s| {
      assert s[..|p|][k] == s[k] && s[k] in s;
    }
    if s != [] {
      assert forall i :: 0 <= i < |s| - 1 ==> s[1..][i] == s[i + 1];
      MissingCharNotContained(s[1..], p, c);
    }
  }

  /** `s.split(sep)` for a non-empty separator: the pieces between the occurrences of `sep`,
      found left to right without overlap. */
  function Split(s: string, sep: string): (parts: seq<string>)
    requires sep != []
    ensures |parts| >= 1
    decreases |s|
  {
    if |s| < |sep| then [s]
    else if s[..|sep|] == sep then [[]] + Split(s[|sep|..], sep)
    else
      var rest := Split(s[1..], sep);
      [[s[0]] + rest[0]] + rest[1..]
  }

  /** `parts.join(sep)`. */
  function Join(parts: seq<string>, sep: string): string {
    if parts == [] then []
    else if |parts| == 1 then parts[0]
    else parts[0] + sep + Join(parts[1..], sep)
  }

  /** An empty piece in front adds the separator in front of the joined text. */
  lemma JoinEmptyHead(parts: seq<string>, sep: string)
    requires parts != []
    ensures Join([[]] + parts, sep) == sep + Join(parts, sep)
  {
    var q := [[]] + parts;
    assert q[0] == [] && q[1..] == parts;
  }

  /** A character added to the first piece comes first in the joined text. */
  lemma JoinExtendHead(c: char, parts: seq<string>, sep: string)
    requires parts != []
    ensures Join([[c] + parts[0]] + parts[1..], sep) == [c] + Join(parts, sep)
  {
    var q := [[c] + parts[0]] + parts[1..];
    assert q[0] == [c] + parts[0] && q[1..] == parts[1..];
    if |parts| > 1 {
      assert ([c] + parts[0]) + sep + Join(parts[1..], sep) == [c] + (parts[0] + sep + Join(parts[1..], sep));
    }
  }

  /** Joining the pieces of a split on the same separator gives back the string. */
  lemma {:induction false} JoinSplit(s: string, sep: string)
    requires sep != []
    ensures Join(Split(s, sep), sep) == s
  {
    if |s| < |sep| {
    } else if s[..|sep|] == sep {
      JoinSplit(s[|sep|..], sep);
      JoinEmptyHead(Split(s[|sep|..], sep), sep);
      assert s == sep + s[|sep|..];
    } else {
      JoinSplit(s[1..], sep);
      JoinExtendHead(s[0], Split(s[1..], sep), sep);
      assert s == [s[0]] + s[1..];
    }
  }

  /** Joining one more piece appends the separator and that piece. */
  lemma {:induction false} JoinSnoc(parts: seq<string>, x: string, sep: string)
    requires parts != []
    ensures Join(parts + [x], sep) == Join(parts, sep) + sep + x
  {
    var ps := parts + [x];
    assert ps[0] == parts[0] && ps[1..] == parts[1..] + [x];
    if |parts| > 1 {
      JoinSnoc(parts[1..], x, sep);
    }
  }

  /** The first piece of a split is a prefix of the string. */
  lemma SplitHeadPrefix(s: string, sep: string)
    requires sep != []
    ensures var parts := Split(s, sep); |parts[0]| <= |s| && s[..|parts[0]|] == parts[0]
  {
    var parts := Split(s, sep);
    JoinSplit(s, sep);
    if |parts| > 1 {
      assert Join(parts, sep) == parts[0] + sep + Join(parts[1..], sep);
    }
  }

  /** No piece of a split contains the separator: every occurrence was cut. */
  lemma {:induction false} SplitPartsFree(s: string, sep: string)
    requires sep != []
    ensures forall k :: 0 <= k < |Split(s, sep)| ==> !Contains(Split(s, sep)[k], sep)
  {
    var parts := Split(s, sep);
    if |s| < |sep| {
      if Contains(s, sep) { ContainsLength(s, sep); }
    } else if s[..|sep|] == sep {
      SplitPartsFree(s[|sep|..], sep);
      assert !Contains([], sep);
      forall k | 0 < k < |parts| ensures !Contains(parts[k], sep) {
        assert parts[k] == Split(s[|sep|..], sep)[k - 1];
      }
    } else {
      var rest := Split(s[1..], sep);
      SplitPartsFree(s[1..], sep);
      var head := [s[0]] + rest[0];
      assert !Contains(head, sep) by {
        SplitHeadPrefix(s[1..], sep);
        assert head == s[..|head|];
        assert head[1..] == rest[0];
      }
      forall k | 0 < k < |parts| ensures !Contains(parts[k], sep) {
        assert parts[k] == rest[k];
      }
    }
  }

  /** A split yields more than one piece exactly when the separator occurs. */
  lemma {:induction false} SplitCutsIffContains(s: string, sep: string)
    requires sep != []
    ensures |Split(s, sep)| > 1 <==> Contains(s, sep)
  {
    if |s| < |sep| {
      if Contains(s, sep) { ContainsLength(s, sep); }
    } else if s[..|sep|] == sep {
    } else {
      SplitCutsIffContains(s[1..], sep);
    }
  }

  /** Joining two non-empty lists of pieces puts one separator between their joins. */
  lemma {:induction false} JoinAppend(a: seq<string>, b: seq<string>, sep: string)
    requires a != [] && b != []
    ensures Join(a + b, sep) == Join(a, sep) + sep + Join(b, sep)
  {
    assert (a + b)[0] == a[0];
    if |a| > 1 {
      assert (a + b)[1..] == a[1..] + b;
      JoinAppend(a[1..], b, sep);
    } else {
      assert (a + b)[1..] == b;
    }
  }

  /** Piece `i` of a join sits between the join of the pieces before it and that of the pieces
      after it, each followed or preceded by a separator when present. */
  lemma JoinAround(parts: seq<string>, i: nat, sep: string)
    requires i < |parts|
    ensures Join(parts, sep)
         == (if i == 0 then "" else Join(parts[..i], sep) + sep)
            + parts[i]
            + (if i + 1 == |parts| then "" else sep + Join(parts[i + 1..], sep))
  {
    var tail := parts[i..];
    assert tail[0] == parts[i];
    if i + 1 < |parts| {
      assert tail[1..] == parts[i + 1..];
    } else {
      assert tail == [parts[i]];
    }
    if i > 0 {
      assert parts == parts[..i] + tail;
      JoinAppend(parts[..i], tail, sep);
    } else {
      assert parts == tail;
    }
  }

  /** A character in none of the pieces and not in the separator is not in their join. */
  lemma {:induction false} JoinLacks(parts: seq<string>, sep: string, c: char)
    requires c !in sep && forall i :: 0 <= i < |parts| ==> c !in parts[i]
    ensures c !in Join(parts, sep)
  {
    if |parts| > 1 {
      JoinLacks(parts[1..], sep, c);
    }
  }

  /** A string that lacks the separator's first character is a single piece. */
  lemma {:induction false} SplitWithout(s: string, sep: string)
    requires sep != [] && sep[0] !in s
    ensures Split(s, sep) == [s]
    decreases |s|
  {
    if |s| >= |sep| {
      assert s[..|sep|][0] == s[0] && s[0] in s;
      SplitWithout(s[1..], sep);
      assert s == [s[0]] + s[1..];
    }
  }

  /** Splitting a piece that lacks the separator's first character, the separator and the rest
      cuts exactly after that piece. */
  lemma {:induction false} SplitAfterPiece(a: string, sep: string, rest: string)
    requires sep != [] && sep[0] !in a
    ensures Split(a + sep + rest, sep) == [a] + Split(rest, sep)
  {
    var s := a + sep + rest;
    if a == [] {
      assert s == sep + rest && s[..|sep|] == sep && s[|sep|..] == rest;
    } else {
      assert s[0] == a[0] && a[0] in a;
      assert s[..|sep|][0] == s[0];
      assert s[1..] == a[1..] + sep + rest;
      SplitAfterPiece(a[1..], sep, rest);
      assert a == [a[0]] + a[1..];
    }
  }

  /** Splitting a join gives back the pieces when none of them contains the separator's first
      character. */
  lemma {:induction false} SplitJoin(parts: seq<string>, sep: string)
    requires sep != [] && parts != []
    requires forall i :: 0 <= i < |parts| ==> sep[0] !in parts[i]
    ensures Split(Join(parts, sep), sep) == parts
  {
    if |parts| == 1 {
      SplitWithout(parts[0], sep);
    } else {
      SplitJoin(parts[1..], sep);
      SplitAfterPiece(parts[0], sep, Join(parts[1..], sep));
      assert parts == [parts[0]] + parts[1..];
    }
  }

  /** The concatenation of a sequence of strings, as `textContent` joins text nodes. */
  function Concat(ss: seq<string>): string {
    if ss == [] then [] else ss[0] + Concat(ss[1..])
  }

  lemma {:induction false} ConcatAppend(a: seq<string>, b: seq<string>)
    ensures Concat(a + b) == Concat(a) + Concat(b)
  {
    if a == [] {
      assert a + b == b;
    } else {
      assert (a + b)[0] == a[0];
      assert (a + b)[1..] == a[1..] + b;
      ConcatAppend(a[1..], b);
    }
  }

  /** The first word of a string that starts with a non-space: the longest run of non-space characters. */
  function TakeWord(s: string): (w: string)
    ensures |w| <= |s| && w == s[..|w|]
    ensures s != [] && !IsSpace(s[0]) ==> |w| >= 1
    ensures forall i :: 0 <= i < |w| ==> !IsSpace(w[i])
    ensures |w| == |s| || IsSpace(s[|w|])
  {
    if s == [] || IsSpace(s[0]) then [] else [s[0]] + TakeWord(s[1..])
  }

  /** The non-empty pieces of `s.split(/\s+/)`, in order. */
  function Words(s: string): seq<string>
    decreases |s|
  {
    var t := TrimStart(s);
    if t == [] then []
    else
      var w := TakeWord(t);
      [w] + Words(t[|w|..])
  }

  /** A string without white space is its own first word. */
  lemma TakeWordOfWord(s: string)
    requires forall i :: 0 <= i < |s| ==> !IsSpace(s[i])
    ensures TakeWord(s) == s
  {
  }

  /** A non-empty string without white space is one word. */
  lemma WordsOfWord(s: string)
    requires s != [] && forall i :: 0 <= i < |s| ==> !IsSpace(s[i])
    ensures Words(s) == [s]
  {
    TakeWordOfWord(s);
    assert s[|s|..] == [];
  }

  function DigitChar(d: nat): char
    requires d < 10
  {
    ('0' as int + d) as char
  }

  predicate IsDigit(c: char) {
    '0' <= c <= '9'
  }

  /** The value of a string of decimal digits. */
  function DecimalValue(s: string): nat
    requires forall i :: 0 <= i < |s| ==> IsDigit(s[i])
  {
    if s == [] then 0 else
    assert IsDigit(s[|s| - 1]);
    10 * DecimalValue(s[..|s| - 1]) + (s[|s| - 1] as int - '0' as int)
  }

  /** `String(n)` for a non-negative integer: its decimal digits with no leading zero. */
  function NatToString(n: nat): (s: string)
    ensures s != [] && forall i :: 0 <= i < |s| ==> IsDigit(s[i])
    ensures s[0] == '0' ==> s == "0"
  {
    if n < 10 then [DigitChar(n)] else NatToString(n / 10) + [DigitChar(n % 10)]
  }

  /** The decimal rendering reads back as the same number, so distinct numbers render distinctly. */
  lemma {:induction false} NatToStringValue(n: nat)
    ensures DecimalValue(NatToString(n)) == n
  {
    if n >= 10 {
      var s := NatToString(n);
      assert s[..|s| - 1] == NatToString(n / 10);
      NatToStringValue(n / 10);
    }
  }

  lemma NatToStringInjective(m: nat, n: nat)
    requires NatToString(m) == NatToString(n)
    ensures m == n
  {
    NatToStringValue(m);
    NatToStringValue(n);
  }

  /** `String(i)` for an integer: a minus sign before the digits of a negative one. */
  function IntToString(i: int): (s: string)
    ensures s != []
  {
    if i < 0 then "-" + NatToString(-i) else NatToString(i)
  }
}

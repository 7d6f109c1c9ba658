/** The JavaScript string operations the listing and the dialog rely on:
    ASCII case mapping, `includes`, `split`, `join` and the `/\s+/g`
    rewrite. */
module Strings {
  import opened Wrappers

  // ---------------------------------------------------------------- case

  function LowerChar(c: char): (r: char)
    ensures 'A' <= c <= 'Z' ==> r as int == c as int + 32
    ensures !('A' <= c <= 'Z') ==> r == c
  {
    if 'A' <= c <= 'Z' then (c as int + 32) as char else c
  }

  function UpperChar(c: char): (r: char)
    ensures 'a' <= c <= 'z' ==> r as int == c as int - 32
    ensures !('a' <= c <= 'z') ==> r == c
  {
    if 'a' <= c <= 'z' then (c as int - 32) as char else c
  }

  /** `String.prototype.toLowerCase`, restricted to ASCII letters. */
  function ToLower(s: string): (r: string)
    ensures |r| == |s|
    ensures forall i :: 0 <= i < |s| ==> r[i] == LowerChar(s[i])
  {
    seq(|s|, i requires 0 <= i < |s| => LowerChar(s[i]))
  }

  /** `String.prototype.toUpperCase`, restricted to ASCII letters. */
  function ToUpper(s: string): (r: string)
    ensures |r| == |s|
    ensures forall i :: 0 <= i < |s| ==> r[i] == UpperChar(s[i])
  {
    seq(|s|, i requires 0 <= i < |s| => UpperChar(s[i]))
  }

  // ---------------------------------------------------------- searching

  predicate OccursAt(s: string, sub: string, i: int) {
    0 <= i && i + |sub| <= |s| && s[i..i + |sub|] == sub
  }

  /** `s.includes(sub)`. */
  predicate Contains(s: string, sub: string) {
    exists i :: 0 <= i <= |s| - |sub| && OccursAt(s, sub, i)
  }

  /** The first position at or after `from` where `sep` occurs in `s`. */
  function IndexOfFrom(s: string, sep: string, from: nat): (r: Option<nat>)
    requires |sep| > 0
    ensures r.Some? ==> from <= r.value && OccursAt(s, sep, r.value)
    ensures forall k :: from <= k && (r.None? || k < r.value) ==> !OccursAt(s, sep, k)
    decreases |s| - from
  {
    if from + |sep| > |s| then None
    else if s[from..from + |sep|] == sep then Some(from)
    else IndexOfFrom(s, sep, from + 1)
  }

  /** `s.split(sep)` for a non-empty separator. */
  function Split(s: string, sep: string): (r: seq<string>)
    requires |sep| > 0
    ensures |r| >= 1
    decreases |s|
  {
    match IndexOfFrom(s, sep, 0)
    case None => [s]
    case Some(i) => [s[..i]] + Split(s[i + |sep|..], sep)
  }

  /** `parts.join(sep)`. */
  function Join(parts: seq<string>, sep: string): string {
    if |parts| == 0 then ""
    else if |parts| == 1 then parts[0]
    else parts[0] + sep + Join(parts[1..], sep)
  }

  /** Joining the pieces of a split gives back the original string. */
  lemma {:induction false} JoinSplit(s: string, sep: string)
    requires |sep| > 0
    ensures Join(Split(s, sep), sep) == s
    decreases |s|
  {
    var found := IndexOfFrom(s, sep, 0);
    if found.Some? {
      var i := found.value;
      var rest := s[i + |sep|..];
      var pieces := Split(rest, sep);
      JoinSplit(rest, sep);
      var all := [s[..i]] + pieces;
      assert Split(s, sep) == all;
      assert all[0] == s[..i] && all[1..] == pieces;
      assert Join(all, sep) == s[..i] + sep + Join(pieces, sep);
      assert s[i..i + |sep|] == sep;
      assert s == s[..i] + s[i..i + |sep|] + rest;
    }
  }

  /** A string whose characters avoid `c` holds no occurrence of a separator
      starting with `c` anywhere inside it. */
  lemma NoOccurrenceInside(a: string, b: string, sep: string, k: nat)
    requires |sep| > 0 && sep[0] !in a
    requires k < |a|
    ensures !OccursAt(a + b, sep, k)
  {
    assert (a + b)[k] == a[k];
    assert a[k] in a;
    assert k + |sep| <= |a + b| ==> (a + b)[k..k + |sep|][0] == (a + b)[k];
  }

  /** Splitting a join gives back the parts, when no part contains the
      separator's first character. */
  lemma {:induction false} SplitJoin(parts: seq<string>, sep: string)
    requires |parts| >= 1 && |sep| > 0
    requires forall p :: p in parts ==> sep[0] !in p
    ensures Split(Join(parts, sep), sep) == parts
    decreases |parts|
  {
    var head := parts[0];
    if |parts| == 1 {
      forall k | 0 <= k
        ensures !OccursAt(head, sep, k)
      {
        if k < |head| {
          NoOccurrenceInside(head, [], sep, k);
          assert head + [] == head;
        }
      }
      assert IndexOfFrom(head, sep, 0).None?;
    } else {
      var tail := Join(parts[1..], sep);
      var s := head + (sep + tail);
      assert Join(parts, sep) == s;
      forall k | 0 <= k < |head|
        ensures !OccursAt(s, sep, k)
      {
        NoOccurrenceInside(head, sep + tail, sep, k);
      }
      assert s[|head|..|head| + |sep|] == sep;
      assert OccursAt(s, sep, |head|);
      assert IndexOfFrom(s, sep, 0) == Some(|head|);
      assert s[..|head|] == head;
      assert s[|head| + |sep|..] == tail;
      SplitJoin(parts[1..], sep);
    }
  }

  // --------------------------------------------------------- whitespace

  /** The characters of the regular-expression class `\s`: the ASCII
      space, tab, line feed, vertical tab, form feed and carriage return,
      the byte-order mark, and the Unicode space separators and line and
      paragraph separators. */
  predicate IsWhitespace(c: char) {
    || c == ' ' || '\t' <= c <= '\r' || c == '\U{00A0}' || c == '\U{1680}' || '\U{2000}' <= c <= '\U{200A}'
    || c == '\U{2028}' || c == '\U{2029}' || c == '\U{202F}' || c == '\U{205F}' || c == '\U{3000}' || c == '\U{FEFF}'
  }

  /** `s.replace(/\s+/g, '-')`: every maximal run of whitespace becomes one
      hyphen. */
  function ReplaceWhitespaceRuns(s: string): (r: string)
    ensures forall i :: 0 <= i < |r| ==> !IsWhitespace(r[i])
    ensures forall c :: c in r ==> c == '-' || c in s
    ensures |r| <= |s|
    ensures (forall i :: 0 <= i < |s| ==> !IsWhitespace(s[i])) ==> r == s
  {
    HyphenatedHasNoWhitespace(s);
    HyphenatedKeepsCharacters(s);
    HyphenatedOfPlainText(s);
    Hyphenated(s)
  }

  /** The replacement, scanning from the left: a whitespace character
      starts a run, which is skipped as a whole and leaves one hyphen. */
  function Hyphenated(s: string): string
    decreases |s|
  {
    if |s| == 0 then []
    else if IsWhitespace(s[0]) then "-" + Hyphenated(SkipWhitespace(s[1..]))
    else [s[0]] + Hyphenated(s[1..])
  }

  lemma {:induction false} HyphenatedHasNoWhitespace(s: string)
    ensures forall i :: 0 <= i < |Hyphenated(s)| ==> !IsWhitespace(Hyphenated(s)[i])
    ensures |Hyphenated(s)| <= |s|
    decreases |s|
  {
    if |s| > 0 {
      if IsWhitespace(s[0]) {
        HyphenatedHasNoWhitespace(SkipWhitespace(s[1..]));
      } else {
        HyphenatedHasNoWhitespace(s[1..]);
      }
    }
  }

  lemma {:induction false} HyphenatedKeepsCharacters(s: string)
    ensures forall c :: c in Hyphenated(s) ==> c == '-' || c in s
    decreases |s|
  {
    if |s| > 0 {
      if IsWhitespace(s[0]) {
        var rest := SkipWhitespace(s[1..]);
        HyphenatedKeepsCharacters(rest);
        CharsOfSuffix(s, rest, Hyphenated(rest));
      } else {
        HyphenatedKeepsCharacters(s[1..]);
        CharsOfSuffix(s, s[1..], Hyphenated(s[1..]));
      }
    }
  }

  lemma {:induction false} HyphenatedOfPlainText(s: string)
    ensures (forall i :: 0 <= i < |s| ==> !IsWhitespace(s[i])) ==> Hyphenated(s) == s
  {
    if |s| > 0 && forall i :: 0 <= i < |s| ==> !IsWhitespace(s[i]) {
      NoWhitespaceInTail(s);
      HyphenatedOfPlainText(s[1..]);
      assert s == [s[0]] + s[1..];
    }
  }

  lemma CharsOfSuffix(s: string, rest: string, tail: string)
    requires |rest| <= |s| && rest == s[|s| - |rest|..]
    requires forall c :: c in tail ==> c == '-' || c in rest
    ensures forall c :: c in tail ==> c == '-' || c in s
  {
    forall c | c in tail && c != '-'
      ensures c in s
    {
      var k :| 0 <= k < |rest| && rest[k] == c;
      assert s[|s| - |rest| + k] == c;
    }
  }

  lemma NoWhitespaceInTail(s: string)
    requires |s| > 0
    ensures (forall i :: 0 <= i < |s| ==> !IsWhitespace(s[i])) ==> forall i :: 0 <= i < |s[1..]| ==> !IsWhitespace(s[1..][i])
  {
    forall i | 0 <= i < |s[1..]|
      ensures s[1..][i] == s[i + 1]
    {
    }
  }

  /** The run rule: a run of whitespace between two texts that do not
      touch it with whitespace of their own becomes exactly one hyphen, and
      each side is replaced on its own. */
  lemma ReplaceWhitespaceRunsOfRun(a: string, w: string, b: string)
    requires |w| > 0 && forall i :: 0 <= i < |w| ==> IsWhitespace(w[i])
    requires |a| == 0 || !IsWhitespace(a[|a| - 1])
    requires |b| == 0 || !IsWhitespace(b[0])
    ensures ReplaceWhitespaceRuns(a + w + b) == ReplaceWhitespaceRuns(a) + "-" + ReplaceWhitespaceRuns(b)
  {
    assert Hyphenated(a + w + b) == Hyphenated(a) + "-" + Hyphenated(b) by {
      assert a + w + b == a + (w + b);
      HyphenatedAppend(a, w + b);
      HyphenatedOfLeadingRun(w, b);
      ConcatAssoc(Hyphenated(a), "-", Hyphenated(b));
    }
  }

  lemma ConcatAssoc(x: string, y: string, z: string)
    ensures x + y + z == x + (y + z)
  {
  }

  /** Text that ends in a non-whitespace character is replaced
      independently of what follows it. */
  lemma {:induction false} HyphenatedAppend(a: string, u: string)
    requires |a| == 0 || !IsWhitespace(a[|a| - 1])
    ensures Hyphenated(a + u) == Hyphenated(a) + Hyphenated(u)
    decreases |a|
  {
    if |a| == 0 {
      assert a + u == u;
    } else {
      var x := a[1..];
      assert (a + u)[0] == a[0] && (a + u)[1..] == x + u;
      if IsWhitespace(a[0]) {
        var y := SkipWhitespace(x);
        SkipWhitespaceAppend(x, u);
        assert y[|y| - 1] == a[|a| - 1];
        HyphenatedAppend(y, u);
        ConcatAssoc("-", Hyphenated(y), Hyphenated(u));
      } else {
        HyphenatedAppend(x, u);
        ConcatAssoc([a[0]], Hyphenated(x), Hyphenated(u));
      }
    }
  }

  lemma {:induction false} SkipWhitespaceAppend(x: string, u: string)
    requires |x| > 0 && !IsWhitespace(x[|x| - 1])
    ensures SkipWhitespace(x + u) == SkipWhitespace(x) + u
    ensures |SkipWhitespace(x)| > 0
  {
    if IsWhitespace(x[0]) {
      assert (x + u)[1..] == x[1..] + u;
      SkipWhitespaceAppend(x[1..], u);
    }
  }

  lemma {:induction false} SkipWhitespaceOfRun(w: string, b: string)
    requires forall i :: 0 <= i < |w| ==> IsWhitespace(w[i])
    requires |b| == 0 || !IsWhitespace(b[0])
    ensures SkipWhitespace(w + b) == b
  {
    if |w| == 0 {
      assert w + b == b;
    } else {
      assert (w + b)[1..] == w[1..] + b;
      SkipWhitespaceOfRun(w[1..], b);
    }
  }

  lemma HyphenatedOfLeadingRun(w: string, b: string)
    requires |w| > 0 && forall i :: 0 <= i < |w| ==> IsWhitespace(w[i])
    requires |b| == 0 || !IsWhitespace(b[0])
    ensures Hyphenated(w + b) == "-" + Hyphenated(b)
  {
    var s := w + b;
    assert s[0] == w[0] && s[1..] == w[1..] + b;
    RunOfTail(w);
    SkipWhitespaceOfRun(w[1..], b);
  }

  lemma RunOfTail(w: string)
    requires |w| > 0 && forall i :: 0 <= i < |w| ==> IsWhitespace(w[i])
    ensures forall i :: 0 <= i < |w[1..]| ==> IsWhitespace(w[1..][i])
  {
    forall i | 0 <= i < |w[1..]|
      ensures w[1..][i] == w[i + 1]
    {
    }
  }

  /** Drops the leading whitespace of `s`. */
  function SkipWhitespace(s: string): (r: string)
    ensures |r| <= |s| && r == s[|s| - |r|..]
    ensures |r| > 0 ==> !IsWhitespace(r[0])
  {
    if |s| > 0 && IsWhitespace(s[0]) then SkipWhitespace(s[1..]) else s
  }

  // ---------------------------------------------------------- ordering

  /** Lexicographic order: `a` is a proper prefix of `b`, or the two agree
      up to a first position where `a` has the smaller character. */
  predicate LexLess(a: string, b: string) {
    || (|a| < |b| && a == b[..|a|])
    || exists k :: 0 <= k < |a| && k < |b| && a[..k] == b[..k] && a[k] < b[k]
  }

  /** The default comparison of `Array.prototype.sort`, character by
      character with a proper prefix first, over characters taken as whole
      code points. */
  function CompareStrings(a: string, b: string): (r: int)
    ensures -1 <= r <= 1
    ensures r == 0 <==> a == b
  {
    if |a| == 0 then (if |b| == 0 then 0 else -1)
    else if |b| == 0 then 1
    else if a[0] < b[0] then -1
    else if a[0] > b[0] then 1
    else
      var r := CompareStrings(a[1..], b[1..]);
      assert a == [a[0]] + a[1..] && b == [b[0]] + b[1..];
      r
  }

  /** The comparison is exactly the lexicographic order. */
  lemma {:induction false} CompareStringsIsLexicographic(a: string, b: string)
    ensures CompareStrings(a, b) < 0 <==> LexLess(a, b)
  {
    if |a| == 0 || |b| == 0 {
    } else if a[0] < b[0] {
      assert a[..0] == b[..0];
    } else if a[0] > b[0] {
      NotLexLessAtFirst(a, b);
    } else {
      CompareStringsIsLexicographic(a[1..], b[1..]);
      LexLessOfTails(a, b);
    }
  }

  lemma NotLexLessAtFirst(a: string, b: string)
    requires |a| > 0 && |b| > 0 && a[0] > b[0]
    ensures !LexLess(a, b)
  {
    if exists k :: 0 <= k < |a| && k < |b| && a[..k] == b[..k] && a[k] < b[k] {
      var k :| 0 <= k < |a| && k < |b| && a[..k] == b[..k] && a[k] < b[k];
      if k > 0 {
        assert a[..k][0] == b[..k][0];
      }
    }
  }

  lemma LexLessOfTails(a: string, b: string)
    requires |a| > 0 && |b| > 0 && a[0] == b[0]
    ensures LexLess(a, b) <==> LexLess(a[1..], b[1..])
  {
    if LexLess(a, b) {
      LexLessToTails(a, b);
    }
    if LexLess(a[1..], b[1..]) {
      LexLessFromTails(a, b);
    }
  }

  lemma LexLessToTails(a: string, b: string)
    requires |a| > 0 && |b| > 0 && a[0] == b[0] && LexLess(a, b)
    ensures LexLess(a[1..], b[1..])
  {
    var a', b' := a[1..], b[1..];
    if |a| < |b| && a == b[..|a|] {
      assert a' == b'[..|a'|];
    } else {
      var k :| 0 <= k < |a| && k < |b| && a[..k] == b[..k] && a[k] < b[k];
      assert k != 0;
      assert a'[..k - 1] == a[..k][1..] && b'[..k - 1] == b[..k][1..];
      assert a'[k - 1] == a[k] && b'[k - 1] == b[k];
    }
  }

  lemma LexLessFromTails(a: string, b: string)
    requires |a| > 0 && |b| > 0 && a[0] == b[0] && LexLess(a[1..], b[1..])
    ensures LexLess(a, b)
  {
    var a', b' := a[1..], b[1..];
    if |a'| < |b'| && a' == b'[..|a'|] {
      assert a == [a[0]] + a' && b[..|a|] == [b[0]] + b'[..|a'|];
    } else {
      var k :| 0 <= k < |a'| && k < |b'| && a'[..k] == b'[..k] && a'[k] < b'[k];
      assert a[..k + 1] == [a[0]] + a'[..k] && b[..k + 1] == [b[0]] + b'[..k];
      assert a[k + 1] == a'[k] && b[k + 1] == b'[k];
    }
  }

  lemma {:induction false} CompareStringsFlip(a: string, b: string)
    ensures CompareStrings(a, b) == -CompareStrings(b, a)
  {
    if |a| > 0 && |b| > 0 && a[0] == b[0] {
      CompareStringsFlip(a[1..], b[1..]);
    }
  }

  lemma {:induction false} CompareStringsTransitive(a: string, b: string, c: string)
    requires CompareStrings(a, b) <= 0 && CompareStrings(b, c) <= 0
    ensures CompareStrings(a, c) <= 0
  {
    if |a| > 0 && |b| > 0 && |c| > 0 && a[0] == b[0] == c[0] {
      CompareStringsTransitive(a[1..], b[1..], c[1..]);
    }
  }
}

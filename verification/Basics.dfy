// Shared vocabulary: options, results, byte strings and the string operations
// of the standard library that the crates rely on.

module Basics {
  datatype Option<+T> = None | Some(value: T)

  datatype Result<+T, +E> = Ok(value: T) | Err(error: E) {
    predicate IsFailure() { Err? }

    function PropagateFailure<U>(): Result<U, E>
      requires Err?
    {
      Err(error)
    }

    function Extract(): T
      requires Ok?
    {
      value
    }
  }

  newtype byte = x: int | 0 <= x < 256

  type Bytes = seq<byte>

  /** The text of an optional string, empty when it is absent. */
  function Text(value: Option<string>): string {
    match value
    case None => ""
    case Some(s) => s
  }

  // ---------------------------------------------------------------- characters

  predicate IsAsciiWhitespace(c: char) {
    c == ' ' || c == '\t' || c == '\n' || c == '\U{000C}' || c == '\r'
  }

  /** The White_Space property of Unicode, which `trim` and the pattern `\s` use. */
  predicate IsWhitespace(c: char) {
    || '\t' <= c <= '\r'
    || c == ' ' || c == '\U{0085}' || c == '\U{00A0}' || c == '\U{1680}'
    || '\U{2000}' <= c <= '\U{200A}'
    || c == '\U{2028}' || c == '\U{2029}' || c == '\U{202F}' || c == '\U{205F}' || c == '\U{3000}'
  }

  predicate IsDigit(c: char) { '0' <= c <= '9' }

  predicate IsLowerLetter(c: char) { 'a' <= c <= 'z' }

  predicate IsLetter(c: char) { IsLowerLetter(c) || 'A' <= c <= 'Z' }

  predicate IsAlphanumeric(c: char) { IsLetter(c) || IsDigit(c) }

  predicate IsColon(c: char) { c == ':' }

  function LowerChar(c: char): char {
    if 'A' <= c <= 'Z' then (c as int + 32) as char else c
  }

  // ---------------------------------------------------------------- strings

  function Lower(s: string): (r: string)
    ensures |r| == |s|
    ensures forall i :: 0 <= i < |s| ==> r[i] == LowerChar(s[i])
  {
    seq(|s|, i requires 0 <= i < |s| => LowerChar(s[i]))
  }

  /** The index of the first character that satisfies `p`, or the length of `s`. */
  function Until(s: string, p: char -> bool): (i: nat)
    ensures i <= |s|
    ensures i < |s| ==> p(s[i])
  {
    if s == "" || p(s[0]) then 0 else 1 + Until(s[1..], p)
  }

  lemma {:induction false} UntilHit(s: string, k: nat, p: char -> bool)
    requires k <= |s| && (forall j :: 0 <= j < k ==> !p(s[j])) && (k < |s| ==> p(s[k]))
    ensures Until(s, p) == k
  {
    if k > 0 {
      UntilHit(s[1..], k - 1, p);
    }
  }

  lemma {:induction false} UntilMissed(s: string, p: char -> bool)
    ensures forall j :: 0 <= j < Until(s, p) ==> !p(s[j])
  {
    if s != "" && !p(s[0]) {
      UntilMissed(s[1..], p);
      assert forall j :: 1 <= j < |s| ==> s[j] == s[1..][j - 1];
    }
  }

  /** What is left of `s` after its longest prefix of characters in `p`. */
  function SkipWhile(s: string, p: char -> bool): (r: string)
    ensures |r| <= |s|
    ensures r != "" ==> !p(r[0])
  {
    if s == "" || !p(s[0]) then s else SkipWhile(s[1..], p)
  }

  function DropTrailing(s: string): (r: string)
    ensures |r| <= |s|
    ensures r != "" ==> !IsWhitespace(r[|r| - 1])
  {
    if s == "" || !IsWhitespace(s[|s| - 1]) then s else DropTrailing(s[..|s| - 1])
  }

  function Trim(s: string): string {
    DropTrailing(SkipWhile(s, IsWhitespace))
  }

  predicate IsBlankText(s: string) { forall i :: 0 <= i < |s| ==> IsWhitespace(s[i]) }

  /** The string has a character that is not white space. */
  predicate HasText(s: string) { exists i :: 0 <= i < |s| && !IsWhitespace(s[i]) }

  lemma {:induction false} SkippedIsBlank(s: string) returns (blank: string)
    ensures IsBlankText(blank) && s == blank + SkipWhile(s, IsWhitespace)
  {
    if s == "" || !IsWhitespace(s[0]) {
      blank := "";
    } else {
      var rest := SkippedIsBlank(s[1..]);
      blank := [s[0]] + rest;
      assert s == [s[0]] + s[1..];
    }
  }

  lemma {:induction false} DroppedIsBlank(s: string) returns (blank: string)
    ensures IsBlankText(blank) && s == DropTrailing(s) + blank
  {
    if s == "" || !IsWhitespace(s[|s| - 1]) {
      blank := "";
    } else {
      var last := |s| - 1;
      var rest := DroppedIsBlank(s[..last]);
      blank := rest + [s[last]];
      assert DropTrailing(s) == DropTrailing(s[..last]);
      hide DropTrailing, IsWhitespace;
      assert s == s[..last] + [s[last]];
      Associate(DropTrailing(s), rest, [s[last]]);
    }
  }

  /** Trimming takes white space off both ends, and all of it. */
  lemma TrimExact(s: string) returns (before: string, after: string)
    ensures IsBlankText(before) && IsBlankText(after) && s == before + (Trim(s) + after)
    ensures Trim(s) != "" ==> !IsWhitespace(Trim(s)[0]) && !IsWhitespace(Trim(s)[|Trim(s)| - 1])
    ensures Trim(s) == "" <==> !HasText(s)
  {
    var start := SkipWhile(s, IsWhitespace);
    before := SkippedIsBlank(s);
    after := DroppedIsBlank(start);
    hide SkipWhile, DropTrailing, IsWhitespace;
    if Trim(s) != "" {
      assert start[0] == Trim(s)[0];
      assert s[|before|] == Trim(s)[0];
    } else {
      assert s == before + after;
    }
  }

  /** The parts of `s` between occurrences of `c`; there is always at least one. */
  function Split(s: string, c: char): (parts: seq<string>)
    ensures |parts| >= 1
  {
    if s == "" then [""]
    else if s[0] == c then [""] + Split(s[1..], c)
    else
      var rest := Split(s[1..], c);
      [[s[0]] + rest[0]] + rest[1..]
  }

  function Join(parts: seq<string>, separator: string): string {
    if parts == [] then ""
    else if |parts| == 1 then parts[0]
    else parts[0] + separator + Join(parts[1..], separator)
  }

  /** Splitting is undone by joining, so a string is determined by its parts. */
  lemma {:induction false} JoinOfSplit(s: string, c: char)
    ensures Join(Split(s, c), [c]) == s
  {
    if s != "" {
      JoinOfSplit(s[1..], c);
      var rest := Split(s[1..], c);
      if s[0] == c {
        assert Split(s, c)[1..] == rest;
      } else {
        assert Split(s, c)[1..] == rest[1..];
        if |rest| == 1 {
          assert rest == [rest[0]];
        }
      }
    }
  }

  predicate HasNo(s: string, c: char) { forall i :: 0 <= i < |s| ==> s[i] != c }

  lemma {:induction false} SplitClean(s: string, c: char, i: nat)
    requires i < |Split(s, c)|
    ensures HasNo(Split(s, c)[i], c)
  {
    if s != "" {
      var rest := Split(s[1..], c);
      if s[0] == c {
        if i > 0 {
          SplitClean(s[1..], c, i - 1);
          assert Split(s, c)[i] == rest[i - 1];
        }
      } else {
        SplitClean(s[1..], c, i);
        assert Split(s, c)[i] == if i == 0 then [s[0]] + rest[0] else rest[i];
      }
    }
  }

  lemma {:induction false} SplitWord(s: string, c: char)
    requires HasNo(s, c)
    ensures Split(s, c) == [s]
  {
    if s != "" {
      assert forall i :: 0 <= i < |s[1..]| ==> s[1..][i] == s[i + 1];
      SplitWord(s[1..], c);
      assert [s[0]] + s[1..] == s;
    }
  }

  lemma {:induction false} SplitAfter(w: string, c: char, t: string)
    requires HasNo(w, c)
    ensures Split(w + ([c] + t), c) == [w] + Split(t, c)
  {
    var s := w + ([c] + t);
    if w == "" {
      assert s == [c] + t && s[1..] == t;
    } else {
      assert forall i :: 0 <= i < |w[1..]| ==> w[1..][i] == w[i + 1];
      SplitAfter(w[1..], c, t);
      assert s[1..] == w[1..] + ([c] + t) && s[0] == w[0];
      assert Split(s[1..], c)[0] == w[1..] && Split(s[1..], c)[1..] == Split(t, c);
      assert [w[0]] + w[1..] == w;
    }
  }

  /** Splitting yields two parts exactly where they are joined by the only separator. */
  lemma TwoPartsExact(s: string, c: char, first: string, second: string)
    ensures Split(s, c) == [first, second] <==> HasNo(first, c) && HasNo(second, c) && s == first + ([c] + second)
  {
    hide Split;
    if Split(s, c) == [first, second] {
      SplitClean(s, c, 0);
      SplitClean(s, c, 1);
      JoinOfSplit(s, c);
      JoinTwo(first, second, [c]);
    }
    if HasNo(first, c) && HasNo(second, c) && s == first + ([c] + second) {
      SplitAfter(first, c, second);
      SplitWord(second, c);
    }
  }

  lemma JoinTwo(first: string, second: string, separator: string)
    ensures Join([first, second], separator) == first + (separator + second)
  {
    assert [first, second][1..] == [second];
    Associate(first, separator, second);
  }

  lemma Associate<T>(a: seq<T>, b: seq<T>, c: seq<T>)
    ensures (a + b) + c == a + (b + c)
  {
  }

  lemma Append<T>(a: seq<T>, b: seq<T>)
    ensures a == [] ==> a + b == b
    ensures b == [] ==> a + b == a
  {
  }

  /** `s` is `part`, or `part` followed by the separator and more. */
  predicate StartsAs(s: string, part: string, c: char) { s == part || HasPrefix(s, part + [c]) }

  lemma {:induction false} FirstPart(s: string, c: char)
    ensures var k := |Split(s, c)[0]|;
            && k <= |s| && Split(s, c)[0] == s[..k] && (k < |s| ==> s[k] == c)
  {
    if s != "" && s[0] != c {
      FirstPart(s[1..], c);
      assert s[1..][..|Split(s[1..], c)[0]|] == s[1..|Split(s, c)[0]|];
    }
  }

  /** The first part is what stands before the first separator. */
  lemma FirstPartExact(s: string, c: char, part: string)
    ensures Split(s, c)[0] == part <==> HasNo(part, c) && StartsAs(s, part, c)
  {
    hide Split;
    if Split(s, c)[0] == part {
      FirstPart(s, c);
      SplitClean(s, c, 0);
      if |part| < |s| {
        assert s[..|part| + 1] == part + [c];
      }
    }
    if HasNo(part, c) && s == part {
      SplitWord(part, c);
    }
    if HasNo(part, c) && HasPrefix(s, part + [c]) {
      var t := s[|part| + 1..];
      assert s == part + ([c] + t);
      SplitAfter(part, c, t);
    }
  }

  lemma DropInside<T>(a: seq<T>, b: seq<T>, k: nat)
    requires k <= |a|
    ensures (a + b)[k..] == a[k..] + b
  {
  }

  predicate HasPrefix(s: string, prefix: string) {
    |prefix| <= |s| && s[..|prefix|] == prefix
  }

  function Decimal(n: nat): (r: string)
    ensures r != ""
  {
    if n < 10 then [('0' as int + n) as char]
    else Decimal(n / 10) + [('0' as int + n % 10) as char]
  }
}

/**
 * The JavaScript string built-ins the handlers and pages rely on, with their
 * exact edge cases: `split` with a one-character separator (always at least one
 * piece), `Array.prototype.join`, `pop` of the last piece, `trim`,
 * `startsWith`, `includes` and the truthiness of a possibly-null string.
 */
module JsString {
  import opened Wrappers

  /** JavaScript's WhiteSpace and LineTerminator code points, which `trim` strips. */
  predicate IsSpace(c: char) {
    || c == '\t' || c == '\n' || c == '\U{000B}' || c == '\U{000C}' || c == '\r' || c == ' '
    || c == '\U{00A0}' || c == '\U{1680}' || ('\U{2000}' <= c <= '\U{200A}')
    || c == '\U{2028}' || c == '\U{2029}' || c == '\U{202F}' || c == '\U{205F}'
    || c == '\U{3000}' || c == '\U{FEFF}'
  }

  /** A string value is truthy exactly when it is present and non-empty. */
  predicate Truthy(s: Option<string>) {
    s.Some? && s.value != ""
  }

  /** `s || null`: a falsy string becomes null, a truthy one is kept. */
  function OrNull(s: Option<string>): (r: Option<string>)
    ensures Truthy(s) ==> r == s
    ensures !Truthy(s) ==> r == None
    ensures r == None || Truthy(r)
  {
    if Truthy(s) then s else None
  }

  predicate StartsWith(s: string, prefix: string) {
    |prefix| <= |s| && s[..|prefix|] == prefix
  }

  predicate Includes(s: string, part: string) {
    exists i :: 0 <= i <= |s| - |part| && StartsWith(s[i..], part)
  }

  /** `xs.join(d)`. */
  function Join(xs: seq<string>, d: string): string
  {
    if |xs| == 0 then ""
    else if |xs| == 1 then xs[0]
    else xs[0] + d + Join(xs[1..], d)
  }

  /** `s.split(sep)` for a one-character separator. */
  function Split(s: string, sep: char): (pieces: seq<string>)
    ensures |pieces| >= 1
    ensures forall i :: 0 <= i < |pieces| ==> sep !in pieces[i]
    decreases |s|
  {
    if |s| == 0 then [""]
    else
      var rest := Split(s[1..], sep);
      if s[0] == sep then [""] + rest
      else [[s[0]] + rest[0]] + rest[1..]
  }

  /** `xs.pop()` on a non-empty array, keeping only the popped element. */
  function Last<T>(xs: seq<T>): T
    requires |xs| >= 1
  {
    xs[|xs| - 1]
  }

  /** A string with no JavaScript whitespace at either end. */
  predicate Trimmed(s: string) {
    s == "" || (!IsSpace(s[0]) && !IsSpace(s[|s| - 1]))
  }

  /** The length of the run of whitespace that starts `s`. */
  function LeadingSpaces(s: string): (n: nat)
    ensures n <= |s|
    ensures forall k :: 0 <= k < n ==> IsSpace(s[k])
    ensures n == |s| || !IsSpace(s[n])
  {
    if |s| > 0 && IsSpace(s[0]) then 1 + LeadingSpaces(s[1..]) else 0
  }

  /** `s` without its trailing whitespace: a prefix of `s` that does not end with whitespace. */
  function TrimEnd(s: string): (r: string)
    ensures |r| <= |s| && r == s[..|r|]
    ensures forall k :: |r| <= k < |s| ==> IsSpace(s[k])
    ensures r == "" || !IsSpace(r[|r| - 1])
  {
    if |s| > 0 && IsSpace(s[|s| - 1]) then
      var r := TrimEnd(s[..|s| - 1]);
      assert forall k :: |r| <= k < |s| - 1 ==> s[k] == s[..|s| - 1][k];
      r
    else s
  }

  /**
   * `s.trim()`: the text after the leading whitespace, cut where only
   * whitespace follows.
   */
  function Trim(s: string): (r: string)
    ensures Trimmed(r)
    ensures LeadingSpaces(s) + |r| <= |s| && r == s[LeadingSpaces(s)..][..|r|]
    ensures forall k :: LeadingSpaces(s) + |r| <= k < |s| ==> IsSpace(s[k])
  {
    var i := LeadingSpaces(s);
    var a := s[i..];
    var r := TrimEnd(a);
    forall k | i + |r| <= k < |s| ensures IsSpace(s[k]) {
      assert s[k] == a[k - i];
    }
    assert r != "" ==> r[0] == a[0];
    r
  }

  /** ASCII lower-casing: 'A'..'Z' become 'a'..'z', every other character is kept. */
  function ToLowerAscii(s: string): (r: string)
    ensures |r| == |s|
    ensures forall k :: 0 <= k < |s| ==> r[k] == (if 'A' <= s[k] <= 'Z' then (s[k] as int + 32) as char else s[k])
  {
    if |s| == 0 then ""
    else
      var c := if 'A' <= s[0] <= 'Z' then (s[0] as int + 32) as char else s[0];
      [c] + ToLowerAscii(s[1..])
  }

  // ---------------------------------------------------------------------------
  // split / join
  // ---------------------------------------------------------------------------

  lemma {:induction false} JoinPrependToHead(c: char, xs: seq<string>, d: string)
    requires |xs| >= 1
    ensures Join([[c] + xs[0]] + xs[1..], d) == [c] + Join(xs, d)
  {
    var ys := [[c] + xs[0]] + xs[1..];
    assert ys[1..] == xs[1..];
  }

  /** Joining the pieces of a split with the separator gives back the string. */
  lemma {:induction false} JoinSplit(s: string, sep: char)
    ensures Join(Split(s, sep), [sep]) == s
    decreases |s|
  {
    if |s| > 0 {
      var rest := Split(s[1..], sep);
      JoinSplit(s[1..], sep);
      if s[0] == sep {
        var pieces := [""] + rest;
        assert pieces[1..] == rest;
        if |rest| == 1 {
          assert Join(pieces, [sep]) == "" + [sep] + rest[0];
        }
        assert s == [sep] + s[1..];
      } else {
        JoinPrependToHead(s[0], rest, [sep]);
        assert s == [s[0]] + s[1..];
      }
    }
  }

  /** A string without the separator splits into itself alone. */
  lemma {:induction false} SplitNoSep(a: string, sep: char)
    requires sep !in a
    ensures Split(a, sep) == [a]
    decreases |a|
  {
    if |a| > 0 {
      SplitNoSep(a[1..], sep);
      assert [a[0]] + a[1..] == a;
    }
  }

  /** Splitting `a + sep + b` where `a` holds no separator peels `a` off as the first piece. */
  lemma {:induction false} SplitConcat(a: string, sep: char, b: string)
    requires sep !in a
    ensures Split(a + [sep] + b, sep) == [a] + Split(b, sep)
    decreases |a|
  {
    var s := a + [sep] + b;
    if |a| == 0 {
      assert s[0] == sep && s[1..] == b;
    } else {
      assert s[0] == a[0];
      assert s[1..] == a[1..] + [sep] + b;
      SplitConcat(a[1..], sep, b);
      assert [a[0]] + a[1..] == a;
    }
  }

  /** Split undoes Join when no piece holds the separator: the two are inverses. */
  lemma {:induction false} SplitJoin(xs: seq<string>, sep: char)
    requires |xs| >= 1
    requires forall i :: 0 <= i < |xs| ==> sep !in xs[i]
    ensures Split(Join(xs, [sep]), sep) == xs
    decreases |xs|
  {
    if |xs| == 1 {
      SplitNoSep(xs[0], sep);
    } else {
      SplitJoin(xs[1..], sep);
      SplitConcat(xs[0], sep, Join(xs[1..], [sep]));
      assert [xs[0]] + xs[1..] == xs;
    }
  }

  /** `p` is the text of `s` before its first `sep`, or all of `s` when it has none. */
  predicate IsTextBefore(p: string, s: string, sep: char) {
    StartsWith(s, p) && sep !in p && (|p| == |s| || s[|p|] == sep)
  }

  /** `p` is the text of `s` after its last `sep`, or all of `s` when it has none. */
  predicate IsTextAfterLast(p: string, s: string, sep: char) {
    |p| <= |s| && s[|s| - |p|..] == p && sep !in p && (|p| == |s| || s[|s| - |p| - 1] == sep)
  }

  lemma TextBeforeUnique(p: string, q: string, s: string, sep: char)
    requires IsTextBefore(p, s, sep) && IsTextBefore(q, s, sep)
    ensures p == q
  {
  }

  lemma TextAfterLastUnique(p: string, q: string, s: string, sep: char)
    requires IsTextAfterLast(p, s, sep) && IsTextAfterLast(q, s, sep)
    ensures p == q
  {
  }

  /** The first piece of a split is the text before the first separator. */
  lemma FirstPiece(s: string, sep: char)
    ensures IsTextBefore(Split(s, sep)[0], s, sep)
  {
    var xs := Split(s, sep);
    JoinSplit(s, sep);
    if |xs| > 1 {
      assert s == xs[0] + [sep] + Join(xs[1..], [sep]);
      assert s[..|xs[0]|] == xs[0];
    } else {
      assert s == xs[0];
    }
  }

  lemma {:induction false} JoinLast(xs: seq<string>, d: string)
    requires |xs| >= 2
    ensures Join(xs, d) == Join(xs[..|xs| - 1], d) + d + xs[|xs| - 1]
    decreases |xs|
  {
    if |xs| > 2 {
      JoinLast(xs[1..], d);
      assert xs[1..][..|xs| - 2] == xs[..|xs| - 1][1..];
    }
  }

  /** The last piece of a split is the text after the last separator. */
  lemma LastPiece(s: string, sep: char)
    ensures IsTextAfterLast(Last(Split(s, sep)), s, sep)
  {
    var xs := Split(s, sep);
    JoinSplit(s, sep);
    if |xs| > 1 {
      JoinLast(xs, [sep]);
      var p := Last(xs);
      var front := Join(xs[..|xs| - 1], [sep]);
      assert s == front + [sep] + p;
      assert s[|s| - |p|..] == p;
    }
  }

  /** `s.split(sep).pop()`: the text after the last `sep`, or all of `s` when it has none. */
  function AfterLast(s: string, sep: char): (p: string)
    ensures IsTextAfterLast(p, s, sep)
  {
    LastPiece(s, sep);
    Last(Split(s, sep))
  }

  /** Behind a separator, a tail free of it is all that comes after the last one. */
  lemma AfterLastOf(front: string, sep: char, tail: string)
    requires sep !in tail
    ensures sep in front + [sep] + tail
    ensures AfterLast(front + [sep] + tail, sep) == tail
  {
    var s := front + [sep] + tail;
    assert s[|front|] == sep;
    assert s[|s| - |tail|..] == tail;
    TextAfterLastUnique(AfterLast(s, sep), tail, s, sep);
  }

  // ---------------------------------------------------------------------------
  // trim
  // ---------------------------------------------------------------------------

  /** `trim` leaves an already trimmed string alone. */
  lemma TrimOfTrimmed(s: string)
    requires Trimmed(s)
    ensures Trim(s) == s
  {
  }

  /** `trim` strips a leading blank from a trimmed string. */
  lemma TrimOfSpacePrefixed(s: string)
    requires Trimmed(s)
    ensures Trim(" " + s) == s
  {
    assert (" " + s)[1..] == s;
  }
}

/**
 * The string operations the dictionary core borrows from Rust's `str`:
 * `starts_with`, `to_lowercase` (restricted here to ASCII letters),
 * `split` on a single character and `join` with a single character.
 * Strings are sequences of characters.
 */
module Text {

  /** `s.starts_with(prefix)`: the empty prefix is a prefix of every string. */
  predicate StartsWith(s: string, prefix: string) {
    |prefix| <= |s| && s[..|prefix|] == prefix
  }

  /**
   * `starts_with` compares character by character from the front; the empty
   * prefix is a prefix of every string.
   */
  lemma StartsWithPointwise(s: string, prefix: string)
    ensures StartsWith(s, prefix) <==>
              |prefix| <= |s| && forall i | 0 <= i < |prefix| :: s[i] == prefix[i]
    ensures StartsWith(s, [])
  {
  }

  predicate IsAsciiUpper(c: char) {
    'A' <= c <= 'Z'
  }

  /** Lowercase mapping of one character; only the ASCII capitals change. */
  function LowerChar(c: char): (d: char)
    ensures !IsAsciiUpper(d)
    ensures !IsAsciiUpper(c) ==> d == c
  {
    if IsAsciiUpper(c) then (c as int + 32) as char else c
  }

  /** `s.to_lowercase()` for ASCII text: maps every character on its own, keeps the length. */
  function ToLowercase(s: string): (r: string)
    ensures |r| == |s|
    ensures forall i | 0 <= i < |s| :: r[i] == LowerChar(s[i])
    ensures forall i | 0 <= i < |r| :: !IsAsciiUpper(r[i])
  {
    if s == [] then [] else [LowerChar(s[0])] + ToLowercase(s[1..])
  }

  /** Lowercasing a string that has no ASCII capital leaves it unchanged. */
  lemma LowercaseFixesLowercase(s: string)
    requires forall i | 0 <= i < |s| :: !IsAsciiUpper(s[i])
    ensures ToLowercase(s) == s
  {
  }

  /** Position of the first occurrence of `c` in `s`. */
  function FirstIndex(s: string, c: char): (i: nat)
    requires c in s
    ensures i < |s| && s[i] == c
    ensures c !in s[..i]
  {
    if s[0] == c then 0 else 1 + FirstIndex(s[1..], c)
  }

  /** Any position holding `c` with no `c` before it is the first index. */
  lemma FirstIndexUnique(s: string, c: char, i: nat)
    requires i < |s| && s[i] == c && c !in s[..i]
    ensures FirstIndex(s, c) == i
  {
  }

  /** `s.split(sep)`: the pieces between occurrences of `sep`, in order; never empty. */
  function Split(s: string, sep: char): (parts: seq<string>)
    ensures |parts| >= 1
    decreases |s|
  {
    if sep in s then
      var i := FirstIndex(s, sep);
      [s[..i]] + Split(s[i + 1..], sep)
    else
      [s]
  }

  /**
   * There are two or more pieces exactly when `sep` occurs, and the first
   * piece is the text up to the first `sep` (or the whole string).
   */
  lemma SplitFirst(s: string, sep: char)
    ensures (|Split(s, sep)| >= 2) == (sep in s)
    ensures var p := Split(s, sep)[0];
            StartsWith(s, p) && (|p| == |s| || s[|p|] == sep)
  {
  }

  /** No piece contains the separator. */
  lemma {:induction false} SplitPiecesAvoid(s: string, sep: char)
    ensures forall k | 0 <= k < |Split(s, sep)| :: sep !in Split(s, sep)[k]
    decreases |s|
  {
    if sep in s {
      var i := FirstIndex(s, sep);
      SplitPiecesAvoid(s[i + 1..], sep);
    }
  }

  /** `parts.join(sep)`: the pieces with one `sep` between neighbours. */
  function Join(parts: seq<string>, sep: char): string
  {
    if |parts| == 0 then []
    else if |parts| == 1 then parts[0]
    else parts[0] + [sep] + Join(parts[1..], sep)
  }

  /** Joining never introduces a character other than the separator. */
  lemma {:induction false} JoinAvoids(parts: seq<string>, sep: char, c: char)
    requires c != sep
    requires forall k | 0 <= k < |parts| :: c !in parts[k]
    ensures c !in Join(parts, sep)
  {
    if |parts| >= 2 {
      JoinAvoids(parts[1..], sep, c);
    }
  }

  /** Splitting and joining again gives back the original string. */
  lemma {:induction false} JoinSplit(s: string, sep: char)
    ensures Join(Split(s, sep), sep) == s
    decreases |s|
  {
    if sep in s {
      var i := FirstIndex(s, sep);
      var rest := Split(s[i + 1..], sep);
      JoinSplit(s[i + 1..], sep);
      assert ([s[..i]] + rest)[1..] == rest;
      assert s == s[..i] + [sep] + s[i + 1..];
    }
  }

  /** Joining separator-free pieces and splitting again gives back the pieces. */
  lemma {:induction false} SplitJoin(parts: seq<string>, sep: char)
    requires |parts| >= 1
    requires forall k | 0 <= k < |parts| :: sep !in parts[k]
    ensures Split(Join(parts, sep), sep) == parts
  {
    if |parts| >= 2 {
      var head, tail := parts[0], Join(parts[1..], sep);
      SplitJoin(parts[1..], sep);
      SplitAfterFirst(head, sep, tail);
      assert parts == [head] + parts[1..];
    }
  }

  /** Splitting `head + sep + tail` with `head` free of `sep`: `head`, then the pieces of `tail`. */
  lemma SplitAfterFirst(head: string, sep: char, tail: string)
    requires sep !in head
    ensures Split(head + [sep] + tail, sep) == [head] + Split(tail, sep)
  {
    var s := head + [sep] + tail;
    assert s[..|head|] == head;
    FirstIndexUnique(s, sep, |head|);
    assert s[|head| + 1..] == tail;
  }

  /**
   * When `sep` occurs, the first two pieces lie side by side at the start of
   * `s`, with one `sep` between them and a `sep` or the end after the second.
   */
  lemma SplitFirstTwo(s: string, sep: char)
    requires sep in s
    ensures var p := Split(s, sep);
            && |p| >= 2
            && StartsWith(s, p[0] + [sep] + p[1])
            && (|p[0]| + 1 + |p[1]| == |s| || s[|p[0]| + 1 + |p[1]|] == sep)
  {
    var i := FirstIndex(s, sep);
    var first, rest := s[..i], s[i + 1..];
    assert s == first + [sep] + rest;
    SplitAfterFirst(first, sep, rest);
    SplitFirst(rest, sep);
    FieldsSideBySide(s, first, sep, rest, Split(rest, sep)[0]);
  }

  /** If `s` is `first + sep + rest` and `rest` begins with the field `second`, so does the rest of `s`. */
  lemma FieldsSideBySide(s: string, first: string, sep: char, rest: string, second: string)
    requires s == first + [sep] + rest
    requires StartsWith(rest, second) && (|second| == |rest| || rest[|second|] == sep)
    ensures StartsWith(s, first + [sep] + second)
    ensures var n := |first| + 1 + |second|; n == |s| || s[n] == sep
  {
    var n := |first| + 1 + |second|;
    assert s[..n] == first + [sep] + rest[..|second|];
    if n < |s| {
      assert s[n] == rest[|second|];
    }
  }

  /** Splitting `a + sep + b` splits `a` and `b` independently. */
  lemma {:induction false} SplitAppend(a: string, sep: char, b: string)
    ensures Split(a + [sep] + b, sep) == Split(a, sep) + Split(b, sep)
    decreases |a|
  {
    if sep in a {
      var i := FirstIndex(a, sep);
      var first, rest := a[..i], a[i + 1..];
      assert a == first + [sep] + rest;
      assert a + [sep] + b == first + [sep] + (rest + [sep] + b);
      calc {
        Split(a + [sep] + b, sep);
      == { SplitAfterFirst(first, sep, rest + [sep] + b); }
        [first] + Split(rest + [sep] + b, sep);
      == { SplitAppend(rest, sep, b); }
        [first] + (Split(rest, sep) + Split(b, sep));
      == { SplitAfterFirst(first, sep, rest); }
        Split(a, sep) + Split(b, sep);
      }
    } else {
      SplitAfterFirst(a, sep, b);
    }
  }
}

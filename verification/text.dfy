/** The JavaScript string primitives the scripts rely on: the `\s` class, `trim`,
    `split` on one character, `join`, `endsWith`. Strings are sequences of code points. */
module Text {

  /** White space as JavaScript's `\s` class and `String.prototype.trim` see it:
      the WhiteSpace and LineTerminator code points of ECMA-262. */
  predicate IsSpace(c: char) {
    || c == '\t' || c == '\n' || c == '\U{B}' || c == '\U{C}' || c == '\r' || c == ' '
    || c == '\U{A0}' || c == '\U{1680}' || ('\U{2000}' <= c <= '\U{200A}')
    || c == '\U{2028}' || c == '\U{2029}' || c == '\U{202F}' || c == '\U{205F}'
    || c == '\U{3000}' || c == '\U{FEFF}'
  }

  /** The `\d` class: ASCII decimal digits only. */
  predicate IsDigit(c: char) {
    '0' <= c <= '9'
  }

  predicate AllSpace(s: string) {
    forall k :: 0 <= k < |s| ==> IsSpace(s[k])
  }

  /** Neither end of `s` is white space: what `trim` returns. */
  predicate Trimmed(s: string) {
    s == [] || (!IsSpace(s[0]) && !IsSpace(s[|s| - 1]))
  }

  /** The word `w` occurs in `s` at index `i`. */
  predicate HasAt(s: string, i: nat, w: string) {
    i + |w| <= |s| && s[i..i + |w|] == w
  }

  /** `String.prototype.endsWith`: a case-sensitive suffix test. */
  predicate EndsWith(s: string, suffix: string) {
    |suffix| <= |s| && s[|s| - |suffix|..] == suffix
  }

  /** `String.prototype.trim`: drops the white space at both ends of `s`. */
  function Trim(s: string): (r: string)
    ensures Trimmed(r)
    ensures |r| <= |s|
    decreases |s|
  {
    if s != [] && IsSpace(s[0]) then Trim(s[1..])
    else if s != [] && IsSpace(s[|s| - 1]) then Trim(s[..|s| - 1])
    else s
  }

  /** Trimming keeps a contiguous stretch of its input: it adds no character. */
  lemma {:induction false} TrimKeeps(s: string, c: char)
    requires c in Trim(s)
    ensures c in s
    decreases |s|
  {
    if s != [] && IsSpace(s[0]) {
      TrimKeeps(s[1..], c);
    } else if s != [] && IsSpace(s[|s| - 1]) {
      TrimKeeps(s[..|s| - 1], c);
    }
  }

  /** Trimming removes exactly the white space padding around a trimmed core:
      `trim` inverts padding. */
  lemma {:induction false} TrimPadded(a: string, m: string, b: string)
    requires AllSpace(a) && AllSpace(b) && Trimmed(m)
    ensures Trim(a + m + b) == m
    decreases |a| + |b|
  {
    var s := a + m + b;
    if a != [] {
      assert s[0] == a[0] && s[1..] == a[1..] + m + b;
      TrimPadded(a[1..], m, b);
    } else if b != [] {
      assert s == m + b;
      if m == [] {
        assert s[0] == b[0] && s[1..] == [] + [] + b[1..];
        TrimPadded([], [], b[1..]);
      } else {
        assert s[0] == m[0] && s[|s| - 1] == b[|b| - 1];
        assert s[..|s| - 1] == [] + m + b[..|b| - 1];
        TrimPadded([], m, b[..|b| - 1]);
      }
    } else {
      assert s == m;
    }
  }

  /** `parts.join(sep)`. */
  function Join(parts: seq<string>, sep: string): string
  {
    if |parts| == 0 then []
    else if |parts| == 1 then parts[0]
    else parts[0] + sep + Join(parts[1..], sep)
  }

  /** `s.split(d)` for a one-character separator `d`: the pieces between the occurrences of `d`,
      empty pieces included; the empty string splits into one empty piece. */
  function Split(s: string, d: char): (r: seq<string>)
    ensures |r| >= 1
    ensures forall i :: 0 <= i < |r| ==> d !in r[i]
    decreases |s|
  {
    if s == [] then [[]]
    else
      var rest := Split(s[1..], d);
      if s[0] == d then [[]] + rest
      else [[s[0]] + rest[0]] + rest[1..]
  }

  /** Every piece's characters come from the string split. */
  lemma {:induction false} SplitChars(s: string, d: char, c: char)
    requires c !in s
    ensures forall i :: 0 <= i < |Split(s, d)| ==> c !in Split(s, d)[i]
    decreases |s|
  {
    if s != [] {
      SplitChars(s[1..], d, c);
      assert c != s[0] && c !in s[1..];
    }
  }

  /** Joining the pieces with the separator gives back the string split. */
  lemma {:induction false} JoinSplit(s: string, d: char)
    ensures Join(Split(s, d), [d]) == s
    decreases |s|
  {
    if s != [] {
      var rest := Split(s[1..], d);
      JoinSplit(s[1..], d);
      if s[0] == d {
        assert ([[]] + rest)[1..] == rest;
      } else {
        var r := [[s[0]] + rest[0]] + rest[1..];
        if |rest| > 1 {
          assert r[1..] == rest[1..];
        }
        assert Join(r, [d]) == [s[0]] + Join(rest, [d]);
      }
      assert s == [s[0]] + s[1..];
    }
  }

  /** Splitting a piece free of the separator off the front of a string. */
  lemma {:induction false} SplitFreeFront(x: string, y: string, d: char)
    requires d !in x
    ensures Split(x + y, d) == [x + Split(y, d)[0]] + Split(y, d)[1..]
    decreases |x|
  {
    if x != [] {
      assert (x + y)[0] == x[0];
      assert (x + y)[1..] == x[1..] + y;
      SplitFreeFront(x[1..], y, d);
      assert [x[0]] + (x[1..] + Split(y, d)[0]) == x + Split(y, d)[0];
    } else {
      assert x + y == y;
      assert x + Split(y, d)[0] == Split(y, d)[0];
      assert Split(y, d) == [Split(y, d)[0]] + Split(y, d)[1..];
    }
  }

  /** `split` inverts `join` on pieces free of the separator. */
  lemma {:induction false} SplitJoin(parts: seq<string>, d: char)
    requires |parts| >= 1
    requires forall i :: 0 <= i < |parts| ==> d !in parts[i]
    ensures Split(Join(parts, [d]), d) == parts
    decreases |parts|
  {
    if |parts| == 1 {
      SplitFreeFront(parts[0], [], d);
      assert parts[0] + [] == parts[0];
    } else {
      var tail := Join(parts[1..], [d]);
      assert Join(parts, [d]) == parts[0] + ([d] + tail);
      SplitFreeFront(parts[0], [d] + tail, d);
      assert ([d] + tail)[1..] == tail;
      SplitJoin(parts[1..], d);
      assert Split([d] + tail, d) == [[]] + parts[1..];
      assert parts[0] + [] == parts[0];
      assert parts == [parts[0]] + parts[1..];
    }
  }
}

/**
 * String helpers shared by the browser scripts: the whitespace class that
 * JavaScript's `String.prototype.trim` strips and that the regular-expression
 * class `\s` matches (the two are the same set), `trim` itself, and the
 * truthiness of a possibly-missing string value.
 */
module Text {
  import opened Wrappers

  /** WhiteSpace and LineTerminator code points of ECMAScript. */
  predicate IsWhitespace(c: char) {
    c == ' ' || c == '\t' || c == '\n' || c == '\r' || c == '\U{000B}' || c == '\U{000C}' ||
    c == '\U{00A0}' || c == '\U{1680}' || ('\U{2000}' <= c <= '\U{200A}') ||
    c == '\U{2028}' || c == '\U{2029}' || c == '\U{202F}' || c == '\U{205F}' ||
    c == '\U{3000}' || c == '\U{FEFF}'
  }

  predicate AllWhitespace(s: string) {
    forall k :: 0 <= k < |s| ==> IsWhitespace(s[k])
  }

  predicate NoWhitespace(s: string) {
    forall k :: 0 <= k < |s| ==> !IsWhitespace(s[k])
  }

  /** Neither end of `s` is whitespace: what `trim` leaves behind. */
  predicate IsTrimmed(s: string) {
    s == [] || (!IsWhitespace(s[0]) && !IsWhitespace(s[|s| - 1]))
  }

  /** The number of whitespace characters `s` starts with. */
  function LeadingWhitespace(s: string): (n: nat)
    ensures n <= |s|
    ensures forall k :: 0 <= k < n ==> IsWhitespace(s[k])
    ensures n < |s| ==> !IsWhitespace(s[n])
  {
    if |s| > 0 && IsWhitespace(s[0]) then
      var n' := LeadingWhitespace(s[1..]);
      assert forall k :: 1 <= k < n' + 1 ==> IsWhitespace(s[k]) by {
        forall k | 1 <= k < n' + 1 ensures IsWhitespace(s[k]) { assert s[k] == s[1..][k - 1]; }
      }
      n' + 1
    else 0
  }

  /** The number of whitespace characters `s` ends with. */
  function TrailingWhitespace(s: string): (n: nat)
    ensures n <= |s|
    ensures forall k :: |s| - n <= k < |s| ==> IsWhitespace(s[k])
    ensures n < |s| ==> !IsWhitespace(s[|s| - n - 1])
  {
    if |s| > 0 && IsWhitespace(s[|s| - 1]) then
      var n' := TrailingWhitespace(s[..|s| - 1]);
      assert forall k :: |s| - n' - 1 <= k < |s| - 1 ==> IsWhitespace(s[k]) by {
        forall k | |s| - n' - 1 <= k < |s| - 1 ensures IsWhitespace(s[k]) { assert s[k] == s[..|s| - 1][k]; }
      }
      n' + 1
    else 0
  }

  /** Drops the leading whitespace. */
  function TrimStart(s: string): string {
    s[LeadingWhitespace(s)..]
  }

  /** Drops the trailing whitespace. */
  function TrimEnd(s: string): string {
    s[..|s| - TrailingWhitespace(s)]
  }

  /** `s.trim()`: the longest infix of `s` with no whitespace at either end. */
  function Trim(s: string): (r: string)
    ensures IsTrimmed(r)
    ensures |r| <= |s|
    ensures r == [] <==> AllWhitespace(s)
  {
    var t := TrimStart(s);
    var r := TrimEnd(t);
    assert r != [] ==> !IsWhitespace(r[0]) by {
      if r != [] { assert r[0] == t[0]; }
    }
    assert r == [] ==> t == [] by {
      if t != [] { assert !IsWhitespace(t[0]); }
    }
    r
  }

  /** Leading whitespace is exactly what `TrimStart` removes. */
  lemma {:induction false} TrimStartPadded(w: string, s: string)
    requires AllWhitespace(w)
    requires s == [] || !IsWhitespace(s[0])
    ensures TrimStart(w + s) == s
  {
    if w != [] {
      assert (w + s)[1..] == w[1..] + s;
      TrimStartPadded(w[1..], s);
    } else {
      assert w + s == s;
    }
  }

  /** Trailing whitespace is exactly what `TrimEnd` removes. */
  lemma {:induction false} TrimEndPadded(s: string, w: string)
    requires AllWhitespace(w)
    requires s == [] || !IsWhitespace(s[|s| - 1])
    ensures TrimEnd(s + w) == s
  {
    if w != [] {
      var w' := w[..|w| - 1];
      assert (s + w)[..|s + w| - 1] == s + w';
      TrimEndPadded(s, w');
    } else {
      assert s + w == s;
    }
  }

  /** Surrounding whitespace is exactly what `trim` removes. */
  lemma TrimPadded(w1: string, s: string, w2: string)
    requires AllWhitespace(w1) && AllWhitespace(w2)
    requires IsTrimmed(s)
    ensures Trim(w1 + s + w2) == s
  {
    if s == [] {
      assert AllWhitespace(w1 + s + w2) by {
        forall k | 0 <= k < |w1 + s + w2| ensures IsWhitespace((w1 + s + w2)[k]) {
          if k < |w1| { assert (w1 + s + w2)[k] == w1[k]; }
          else { assert (w1 + s + w2)[k] == w2[k - |w1|]; }
        }
      }
    } else {
      assert w1 + s + w2 == w1 + (s + w2);
      assert (s + w2)[0] == s[0];
      TrimStartPadded(w1, s + w2);
      TrimEndPadded(s, w2);
    }
  }

  /** A string with no whitespace at either end is its own trim. */
  lemma TrimOfTrimmed(s: string)
    requires IsTrimmed(s)
    ensures Trim(s) == s
  {
    TrimPadded([], s, []);
    assert [] + s + [] == s;
  }

  /** Trimming twice is trimming once. */
  lemma TrimIdempotent(s: string)
    ensures Trim(Trim(s)) == Trim(s)
  {
    TrimOfTrimmed(Trim(s));
  }

  /** JavaScript truthiness of a value that is a string or is missing (`undefined`/`null`). */
  predicate Truthy(v: Option<string>) {
    v.Some? && v.value != ""
  }
}

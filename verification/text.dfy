/** The two JavaScript string operations the message webhook applies to a
    body before comparing it with the trigger keyword: `String.prototype.trim`
    and `String.prototype.toLowerCase`.
 */
module Text {

  /** ECMAScript WhiteSpace and LineTerminator code points: what `trim`
      removes from either end. */
  predicate IsWhitespace(c: char) {
    var n := c as int;
    || n == 0x09 || n == 0x0A || n == 0x0B || n == 0x0C || n == 0x0D
    || n == 0x20 || n == 0xA0 || n == 0x1680
    || (0x2000 <= n <= 0x200A)
    || n == 0x2028 || n == 0x2029 || n == 0x202F || n == 0x205F
    || n == 0x3000 || n == 0xFEFF
  }

  predicate AllWhitespace(s: string) {
    forall i :: 0 <= i < |s| ==> IsWhitespace(s[i])
  }

  /** Neither end of `s` is whitespace (vacuously true of ""). */
  predicate Tight(s: string) {
    s == [] || (!IsWhitespace(s[0]) && !IsWhitespace(s[|s| - 1]))
  }

  /** Removes leading whitespace: the result is the longest suffix of `s`
      that does not start with whitespace. */
  function TrimStart(s: string): (r: string)
    ensures |r| <= |s| && r == s[|s| - |r|..]
    ensures AllWhitespace(s[..|s| - |r|])
    ensures r == [] || !IsWhitespace(r[0])
  {
    if |s| > 0 && IsWhitespace(s[0]) then
      var r := TrimStart(s[1..]);
      assert s[..|s| - |r|] == [s[0]] + s[1..][..|s[1..]| - |r|];
      r
    else s
  }

  /** Removes trailing whitespace: the result is the longest prefix of `s`
      that does not end with whitespace. */
  function TrimEnd(s: string): (r: string)
    ensures |r| <= |s| && r == s[..|r|]
    ensures AllWhitespace(s[|r|..])
    ensures r == [] || !IsWhitespace(r[|r| - 1])
  {
    if |s| > 0 && IsWhitespace(s[|s| - 1]) then
      var r := TrimEnd(s[..|s| - 1]);
      assert s[|r|..] == s[..|s| - 1][|r|..] + [s[|s| - 1]];
      r
    else s
  }

  /** `s.trim()`: a slice of `s` with whitespace on neither end. */
  function Trim(s: string): (r: string)
    ensures |r| <= |s|
    ensures Tight(r)
  {
    var t := TrimStart(s);
    var r := TrimEnd(t);
    assert r != [] ==> r[0] == t[0];
    r
  }

  /** Lower case of one ASCII letter; every other character is kept. */
  function LowerChar(c: char): char {
    if 'A' <= c <= 'Z' then (c as int + 32) as char else c
  }

  /** `s.toLowerCase()`, restricted to the ASCII letters. */
  function LowerAscii(s: string): (r: string)
    ensures |r| == |s|
    ensures forall i :: 0 <= i < |s| ==> r[i] == LowerChar(s[i])
  {
    if |s| == 0 then [] else [LowerChar(s[0])] + LowerAscii(s[1..])
  }

  lemma {:induction false} TrimStartSkips(a: string, t: string)
    requires AllWhitespace(a)
    requires t == [] || !IsWhitespace(t[0])
    ensures TrimStart(a + t) == t
    decreases |a|
  {
    if |a| > 0 {
      assert (a + t)[1..] == a[1..] + t;
      TrimStartSkips(a[1..], t);
    } else {
      assert a + t == t;
    }
  }

  lemma {:induction false} TrimEndSkips(t: string, c: string)
    requires AllWhitespace(c)
    requires t == [] || !IsWhitespace(t[|t| - 1])
    ensures TrimEnd(t + c) == t
    decreases |c|
  {
    if |c| > 0 {
      assert (t + c)[..|t + c| - 1] == t + c[..|c| - 1];
      TrimEndSkips(t, c[..|c| - 1]);
    } else {
      assert t + c == t;
    }
  }

  /** `trim` removes exactly the whitespace padding around a tight string. */
  lemma TrimPadded(a: string, b: string, c: string)
    requires AllWhitespace(a) && AllWhitespace(c) && Tight(b)
    ensures Trim(a + b + c) == b
  {
    if b == [] {
      assert a + b + c == (a + c) + [];
      TrimStartSkips(a + c, []);
    } else {
      assert a + b + c == a + (b + c);
      TrimStartSkips(a, b + c);
      TrimEndSkips(b, c);
    }
  }
}

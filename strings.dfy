/**
 * The few Python `str` operations the pipeline relies on: `lower()`, the
 * substring test `t in s`, `split()` on whitespace, and the code-point order
 * used by comparisons and sorting.
 */
module Strings {

  // ---------------------------------------------------------------------------
  // Lower-casing (ASCII letters only; see README)

  predicate IsUpper(c: char) { 'A' <= c <= 'Z' }

  function LowerChar(c: char): char {
    if IsUpper(c) then (c as int + 32) as char else c
  }

  /** Python's `s.lower()`, restricted to ASCII letters. */
  function Lower(s: string): (r: string)
    ensures |r| == |s|
    ensures forall i :: 0 <= i < |s| ==> !IsUpper(r[i])
    ensures forall i :: 0 <= i < |s| && !IsUpper(s[i]) ==> r[i] == s[i]
  {
    seq(|s|, i requires 0 <= i < |s| => LowerChar(s[i]))
  }

  /** Lower-casing twice changes nothing more than lower-casing once. */
  lemma LowerIdempotent(s: string)
    ensures Lower(Lower(s)) == Lower(s)
  {
  }

  // ---------------------------------------------------------------------------
  // Substrings

  predicate StartsWith(s: string, t: string) {
    |t| <= |s| && s[..|t|] == t
  }

  /** Python's `t in s` for strings. */
  predicate Contains(s: string, t: string)
    decreases |s|
  {
    StartsWith(s, t) || (|s| > 0 && Contains(s[1..], t))
  }

  /** `t` occurs in `s` starting at position `i`. */
  predicate OccursAt(s: string, t: string, i: int) {
    0 <= i <= |s| - |t| && s[i..i + |t|] == t
  }

  /** `t in s` holds exactly when `t` occurs at some position of `s`. */
  lemma {:induction false} ContainsAt(s: string, t: string)
    ensures Contains(s, t) <==> exists i :: OccursAt(s, t, i)
    decreases |s|
  {
    if StartsWith(s, t) {
      assert OccursAt(s, t, 0);
    }
    if |s| > 0 {
      ContainsAt(s[1..], t);
      if Contains(s[1..], t) {
        var i :| OccursAt(s[1..], t, i);
        assert OccursAt(s, t, i + 1);
      }
      if exists i :: OccursAt(s, t, i) {
        var i :| OccursAt(s, t, i);
        if i > 0 {
          assert OccursAt(s[1..], t, i - 1);
        }
      }
    }
  }

  // ---------------------------------------------------------------------------
  // Whitespace tokens

  /**
   * The characters Python's `str.split()` treats as whitespace: the ASCII
   * spaces and the four separators 0x1C-0x1F, next line, no-break space,
   * and the Unicode space and line/paragraph separators.
   */
  predicate IsSpace(c: char) {
    c == ' ' || ('\t' <= c <= '\r') || ('\U{001C}' <= c <= '\U{001F}') ||
    c == '\U{0085}' || c == '\U{00A0}' || c == '\U{1680}' || ('\U{2000}' <= c <= '\U{200A}') ||
    c == '\U{2028}' || c == '\U{2029}' || c == '\U{202F}' || c == '\U{205F}' || c == '\U{3000}'
  }

  /** The longest prefix of `s` free of whitespace. */
  function Word(s: string): (w: string)
    ensures |w| <= |s| && w == s[..|w|]
    ensures forall k :: 0 <= k < |w| ==> !IsSpace(w[k])
    ensures |w| == |s| || IsSpace(s[|w|])
  {
    if s == [] || IsSpace(s[0]) then [] else [s[0]] + Word(s[1..])
  }

  /** Python's `s.split()`: the maximal runs of non-whitespace characters, in order. */
  function Tokens(s: string): seq<string>
    decreases |s|
  {
    if s == [] then []
    else if IsSpace(s[0]) then Tokens(s[1..])
    else
      var w := Word(s);
      [w] + Tokens(s[|w|..])
  }

  /** A printable ASCII character other than the space. */
  predicate IsVisible(c: char) {
    '!' <= c <= '~'
  }

  /** A string of printable characters is one word to its end. */
  lemma VisibleWord(s: string)
    requires forall k :: 0 <= k < |s| ==> IsVisible(s[k])
    ensures Word(s) == s
  {
    var w := Word(s);
    assert |w| == |s|;
  }

  /** Printable characters up to a whitespace character form the first word. */
  lemma VisibleWordBefore(s: string, n: int)
    requires 0 <= n < |s| && IsSpace(s[n])
    requires forall k :: 0 <= k < n ==> IsVisible(s[k])
    ensures Word(s) == s[..n]
  {
    var w := Word(s);
    assert |w| == n;
  }

  /** A non-empty string of printable characters is a single word. */
  lemma VisibleIsOneToken(s: string)
    requires s != [] && forall k :: 0 <= k < |s| ==> IsVisible(s[k])
    ensures Tokens(s) == [s]
  {
    assert IsVisible(s[0]);
    VisibleWord(s);
    assert s[|s|..] == [];
  }

  /** `s[i..j]` is a whole word of `s`: no whitespace inside, whitespace or an end on both sides. */
  predicate IsRun(s: string, i: int, j: int) {
    0 <= i < j <= |s| &&
    (i == 0 || IsSpace(s[i - 1])) &&
    (j == |s| || IsSpace(s[j])) &&
    forall k :: i <= k < j ==> !IsSpace(s[k])
  }

  /** Dropping the first `d` characters shifts every later whole word by `d`. */
  lemma RunShift(s: string, d: nat, i: int, j: int)
    requires d <= i && d <= |s|
    requires d < i || (0 < d && IsSpace(s[d - 1]))
    ensures IsRun(s, i, j) <==> IsRun(s[d..], i - d, j - d)
  {
    var rest := s[d..];
    assert forall k :: d <= k < |s| ==> rest[k - d] == s[k];
    if IsRun(s, i, j) {
      if d < i { assert rest[i - d - 1] == s[i - 1]; }
      if j < |s| { assert rest[j - d] == s[j]; }
      forall k | i - d <= k < j - d ensures !IsSpace(rest[k]) {
        assert rest[k] == s[k + d];
      }
    }
    if IsRun(rest, i - d, j - d) {
      if d < i { assert rest[i - d - 1] == s[i - 1]; }
      if j < |s| { assert rest[j - d] == s[j]; }
      forall k | i <= k < j ensures !IsSpace(s[k]) {
        assert s[k] == rest[k - d];
      }
    }
  }

  /** The position of the `n`-th token of `s`. */
  lemma {:induction false} TokenPosition(s: string, n: nat) returns (i: int, j: int)
    requires n < |Tokens(s)|
    ensures IsRun(s, i, j) && s[i..j] == Tokens(s)[n]
    decreases |s|, 1
  {
    if IsSpace(s[0]) {
      assert Tokens(s) == Tokens(s[1..]);
      var i', j' := TokenPosition(s[1..], n);
      i, j := i' + 1, j' + 1;
      RunShift(s, 1, i, j);
      assert s[i..j] == s[1..][i'..j'];
    } else if n == 0 {
      var w := Word(s);
      i, j := 0, |w|;
      assert s[0..|w|] == w;
    } else {
      i, j := LaterTokenPosition(s, n);
    }
  }

  /** The position of a token after the first, in a string that starts with a word. */
  lemma {:induction false} LaterTokenPosition(s: string, n: nat) returns (i: int, j: int)
    requires n < |Tokens(s)| && 0 < n && !IsSpace(s[0])
    ensures IsRun(s, i, j) && s[i..j] == Tokens(s)[n]
    decreases |s|, 0
  {
    var w := Word(s);
    var rest := s[|w|..];
    assert Tokens(s) == [w] + Tokens(rest);
    assert Tokens(s)[n] == Tokens(rest)[n - 1];
    var i', j' := TokenPosition(rest, n - 1);
    assert i' > 0 by {
      if i' == 0 {
        assert rest[0] == s[|w|];
      }
    }
    i, j := i' + |w|, j' + |w|;
    RunShift(s, |Word(s)|, i, j);
    assert s[i..j] == rest[i'..j'] by {
      assert forall k :: 0 <= k < j - i ==> s[i..j][k] == s[i + k] == rest[i' + k] == rest[i'..j'][k];
    }
  }

  /** Every token returned by `split()` is a whole word of the string. */
  lemma TokenIsRun(s: string, n: nat)
    requires n < |Tokens(s)|
    ensures exists i, j :: IsRun(s, i, j) && s[i..j] == Tokens(s)[n]
  {
    var i, j := TokenPosition(s, n);
  }

  /** The index, among the tokens, of a whole word of the string. */
  lemma {:induction false} RunIndex(s: string, i: int, j: int) returns (n: nat)
    requires IsRun(s, i, j)
    ensures n < |Tokens(s)| && Tokens(s)[n] == s[i..j]
    decreases |s|, 1
  {
    if IsSpace(s[0]) {
      assert 1 <= i < j <= |s|;
      RunShift(s, 1, i, j);
      n := RunIndex(s[1..], i - 1, j - 1);
      assert s[1..][i - 1..j - 1] == s[i..j];
    } else {
      n := RunIndexAfterWord(s, i, j);
    }
  }

  /** A whole word either is the string's leading word or starts after it. */
  lemma RunAgainstWord(s: string, i: int, j: int)
    requires IsRun(s, i, j)
    ensures i == 0 ==> j == |Word(s)|
    ensures i != 0 ==> |Word(s)| < i
  {
  }

  lemma {:induction false} RunIndexAfterWord(s: string, i: int, j: int) returns (n: nat)
    requires IsRun(s, i, j) && !IsSpace(s[0])
    ensures n < |Tokens(s)| && Tokens(s)[n] == s[i..j]
    decreases |s|, 0
  {
    var w := Word(s);
    var rest := s[|w|..];
    assert Tokens(s) == [w] + Tokens(rest);
    RunAgainstWord(s, i, j);
    if i == 0 {
      assert s[i..j] == w;
      n := 0;
    } else {
      RunShift(s, |Word(s)|, i, j);
      var m := RunIndex(rest, i - |w|, j - |w|);
      n := m + 1;
      assert rest[i - |w|..j - |w|] == s[i..j];
    }
  }

  /** Every whole word of the string is one of the tokens `split()` returns. */
  lemma RunIsToken(s: string, i: int, j: int)
    requires IsRun(s, i, j)
    ensures s[i..j] in Tokens(s)
  {
    var n := RunIndex(s, i, j);
  }

  // ---------------------------------------------------------------------------
  // Code-point order (Python's `<` and `<=` on `str`)

  predicate StrLt(a: string, b: string)
    decreases |a|
  {
    if a == [] then b != []
    else if b == [] then false
    else if a[0] != b[0] then a[0] < b[0]
    else StrLt(a[1..], b[1..])
  }

  predicate StrLe(a: string, b: string) {
    a == b || StrLt(a, b)
  }

  /** Any two strings are comparable. */
  lemma {:induction false} StrLeTotal(a: string, b: string)
    ensures StrLe(a, b) || StrLe(b, a)
    decreases |a|
  {
    if a != [] && b != [] && a[0] == b[0] {
      StrLeTotal(a[1..], b[1..]);
      if a[1..] == b[1..] {
        assert a == [a[0]] + a[1..] && b == [b[0]] + b[1..];
      }
    }
  }

  /** The order on strings is transitive. */
  lemma {:induction false} StrLtTrans(a: string, b: string, c: string)
    requires StrLt(a, b) && StrLt(b, c)
    ensures StrLt(a, c)
    decreases |a|
  {
    if a != [] && a[0] == b[0] && b[0] == c[0] {
      StrLtTrans(a[1..], b[1..], c[1..]);
    }
  }

  lemma StrLeTrans(a: string, b: string, c: string)
    requires StrLe(a, b) && StrLe(b, c)
    ensures StrLe(a, c)
  {
    if a != b && b != c {
      StrLtTrans(a, b, c);
    }
  }

  /** A string never comes strictly before itself. */
  lemma {:induction false} StrLtIrreflexive(a: string)
    ensures !StrLt(a, a)
    decreases |a|
  {
    if a != [] {
      StrLtIrreflexive(a[1..]);
    }
  }
}

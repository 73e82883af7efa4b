/** JavaScript's `String.prototype.trim`, which the UI uses both to guard a
    submission and to join appended text. A character is removed when it
    belongs to the ECMAScript WhiteSpace or LineTerminator productions. */
module JsString {

  /** The ECMAScript WhiteSpace and LineTerminator code points: tab, line
      tabulation, form feed, space, no-break space, the byte-order mark, the
      other Unicode space separators (category Zs), line feed, carriage
      return, line separator and paragraph separator. */
  predicate IsWhitespace(c: char) {
    || c == '\t' || c == '\U{000B}' || c == '\U{000C}' || c == ' '
    || c == '\U{00A0}' || c == '\U{FEFF}'
    || c == '\U{1680}' || ('\U{2000}' <= c <= '\U{200A}')
    || c == '\U{202F}' || c == '\U{205F}' || c == '\U{3000}'
    || c == '\n' || c == '\r' || c == '\U{2028}' || c == '\U{2029}'
  }

  predicate AllWhitespace(s: string) {
    forall i :: 0 <= i < |s| ==> IsWhitespace(s[i])
  }

  /** No whitespace at either end: what `trim` leaves behind. */
  predicate Trimmed(s: string) {
    s == [] || (!IsWhitespace(s[0]) && !IsWhitespace(s[|s| - 1]))
  }

  /** Drops leading whitespace: the result is a suffix of `s` whose removed
      prefix is all whitespace and which does not start with whitespace. */
  function TrimStart(s: string): (r: string)
    ensures |r| <= |s| && r == s[|s| - |r|..]
    ensures AllWhitespace(s[..|s| - |r|])
    ensures r == [] || !IsWhitespace(r[0])
  {
    if |s| > 0 && IsWhitespace(s[0]) then
      var r := TrimStart(s[1..]);
      var n := |s| - |r|;
      assert s[1..][n - 1..] == s[n..];
      assert forall k :: 1 <= k < n ==> s[k] == s[1..][..n - 1][k - 1];
      r
    else s
  }

  /** Drops trailing whitespace: the result is a prefix of `s` whose removed
      suffix is all whitespace and which does not end with whitespace. */
  function TrimEnd(s: string): (r: string)
    ensures |r| <= |s| && r == s[..|r|]
    ensures AllWhitespace(s[|r|..])
    ensures r == [] || !IsWhitespace(r[|r| - 1])
  {
    if |s| > 0 && IsWhitespace(s[|s| - 1]) then
      var p := s[..|s| - 1];
      var r := TrimEnd(p);
      assert p[..|r|] == s[..|r|];
      assert forall k :: |r| <= k < |s| - 1 ==> s[k] == p[|r|..][k - |r|];
      r
    else s
  }

  /** Leading-whitespace removal empties exactly the all-whitespace texts. */
  lemma {:induction false} TrimStartEmptyIff(s: string)
    ensures TrimStart(s) == [] <==> AllWhitespace(s)
  {
    if |s| > 0 && IsWhitespace(s[0]) {
      TrimStartEmptyIff(s[1..]);
      assert AllWhitespace(s) <==> AllWhitespace(s[1..]) by {
        assert forall k :: 1 <= k < |s| ==> s[k] == s[1..][k - 1];
      }
    } else if |s| > 0 {
      assert !AllWhitespace(s);
    }
  }

  /** Trailing-whitespace removal empties exactly the all-whitespace texts. */
  lemma {:induction false} TrimEndEmptyIff(s: string)
    ensures TrimEnd(s) == [] <==> AllWhitespace(s)
  {
    if |s| > 0 && IsWhitespace(s[|s| - 1]) {
      var p := s[..|s| - 1];
      TrimEndEmptyIff(p);
      assert AllWhitespace(s) <==> AllWhitespace(p) by {
        assert forall k :: 0 <= k < |p| ==> s[k] == p[k];
      }
    } else if |s| > 0 {
      assert !AllWhitespace(s);
    }
  }

  /** `s.trim()`. Empty exactly when `s` is all whitespace, never longer than
      `s`, and free of whitespace at both ends. */
  function Trim(s: string): (r: string)
    ensures |r| <= |s|
    ensures r == [] <==> AllWhitespace(s)
    ensures Trimmed(r)
  {
    var t := TrimStart(s);
    TrimStartEmptyIff(s);
    TrimEndEmptyIff(t);
    assert t == [] <==> AllWhitespace(t);
    var r := TrimEnd(t);
    assert r != [] ==> r[0] == t[0];
    r
  }

  /** Leading whitespace ends at the first non-whitespace position. */
  lemma {:induction false} TrimStartAt(s: string, i: nat)
    requires i < |s| && AllWhitespace(s[..i]) && !IsWhitespace(s[i])
    ensures TrimStart(s) == s[i..]
  {
    if i > 0 {
      assert IsWhitespace(s[..i][0]);
      assert s[1..][..i - 1] == s[1..i];
      assert forall k :: 0 <= k < i - 1 ==> s[1..i][k] == s[..i][k + 1];
      TrimStartAt(s[1..], i - 1);
      assert s[1..][i - 1..] == s[i..];
    }
  }

  /** Trailing whitespace starts right after the last non-whitespace position. */
  lemma {:induction false} TrimEndAt(s: string, j: nat)
    requires 0 < j <= |s| && AllWhitespace(s[j..]) && !IsWhitespace(s[j - 1])
    ensures TrimEnd(s) == s[..j]
  {
    if j < |s| {
      var p := s[..|s| - 1];
      assert IsWhitespace(s[j..][|s| - 1 - j]);
      assert forall k :: 0 <= k < |p| - j ==> p[j..][k] == s[j..][k];
      TrimEndAt(p, j);
      assert p[..j] == s[..j];
    }
  }

  /** The slice `s[i..j]` is what trimming keeps: everything outside it is
      whitespace and it has no whitespace at either end. */
  predicate IsCore(s: string, i: int, j: int) {
    && 0 <= i <= j <= |s|
    && AllWhitespace(s[..i])
    && AllWhitespace(s[j..])
    && Trimmed(s[i..j])
  }

  /** Trimming really cuts `s` at two positions: it returns the core slice. */
  lemma TrimIsCoreSlice(s: string) returns (i: nat, j: nat)
    ensures IsCore(s, i, j) && Trim(s) == s[i..j]
  {
    var t := TrimStart(s);
    var r := TrimEnd(t);
    i := |s| - |t|;
    j := i + |r|;
    assert Trim(s) == r;
    SuffixSlices(s, i, |r|);
  }

  /** Cutting a suffix of `s` again is cutting `s`. */
  lemma SuffixSlices(s: string, i: nat, n: nat)
    requires i + n <= |s|
    ensures s[i..][..n] == s[i..i + n] && s[i..][n..] == s[i + n..]
  {
  }

  /** The core slice is unique: any cut with whitespace outside and none at
      its ends is exactly what `Trim` returns. Together with
      `TrimIsCoreSlice` this characterises `Trim` without its definition. */
  lemma TrimUnique(s: string, i: int, j: int)
    requires IsCore(s, i, j)
    ensures Trim(s) == s[i..j]
  {
    if i == j {
      CoreEmptyAllWhitespace(s, i);
    } else {
      CoreNonEmptyTrim(s, i, j);
    }
  }

  /** An empty core means nothing but whitespace. */
  lemma CoreEmptyAllWhitespace(s: string, i: int)
    requires IsCore(s, i, i)
    ensures AllWhitespace(s)
  {
    forall k | 0 <= k < |s|
      ensures IsWhitespace(s[k])
    {
      if k < i { assert s[..i][k] == s[k]; }
      else { assert s[i..][k - i] == s[k]; }
    }
  }

  /** A non-empty core is what the two halves of trimming leave. */
  lemma CoreNonEmptyTrim(s: string, i: int, j: int)
    requires IsCore(s, i, j) && i < j
    ensures TrimEnd(TrimStart(s)) == s[i..j]
  {
    CoreStart(s, i, j);
    CoreEnd(s, i, j);
  }

  /** Leading-whitespace removal stops where a non-empty core starts. */
  lemma CoreStart(s: string, i: int, j: int)
    requires IsCore(s, i, j) && i < j
    ensures TrimStart(s) == s[i..]
  {
    assert !IsWhitespace(s[i]) by {
      assert s[i..j][0] == s[i];
    }
    TrimStartAt(s, i);
  }

  /** Trailing-whitespace removal, applied to what follows the leading
      whitespace, stops where a non-empty core ends. */
  lemma CoreEnd(s: string, i: int, j: int)
    requires IsCore(s, i, j) && i < j
    ensures TrimEnd(s[i..]) == s[i..j]
  {
    var t := s[i..];
    var n := j - i;
    SuffixSlices(s, i, n);
    assert !IsWhitespace(t[n - 1]) by {
      assert s[i..j][n - 1] == s[j - 1] == t[n - 1];
    }
    TrimEndAt(t, n);
  }

  /** Text that is already trimmed comes back unchanged. */
  lemma TrimOfTrimmed(s: string)
    requires Trimmed(s)
    ensures Trim(s) == s
  {
    assert s[..0] == [] && s[|s|..] == [];
    assert s[0..|s|] == s;
    TrimUnique(s, 0, |s|);
  }

  /** Trimming twice is trimming once. */
  lemma TrimIdempotent(s: string)
    ensures Trim(Trim(s)) == Trim(s)
  {
    TrimOfTrimmed(Trim(s));
  }
}

/** Python `str` behaviour the extractor relies on: the whitespace class
    shared by `str.strip()` and the regular-expression class `\s`, and
    `str.strip()` itself.  Strings are sequences of Unicode scalar values. */
module PyStr {

  /** The characters Python's `str.isspace` accepts.  `str.strip()` with no
      argument and `\s` in a `str` pattern both use this one table.  The
      proofs in this project use that `\n` is whitespace, and that none of
      the delimiter and tag characters (` { } j s o n J p) is. */
  predicate IsSpace(c: char) {
    || ('\t' <= c <= '\r')
    || ('\U{1C}' <= c <= ' ')
    || c == '\U{85}'
    || c == '\U{A0}'
    || c == '\U{1680}'
    || ('\U{2000}' <= c <= '\U{200A}')
    || c == '\U{2028}'
    || c == '\U{2029}'
    || c == '\U{202F}'
    || c == '\U{205F}'
    || c == '\U{3000}'
  }

  /** Every character of s[i..j] is whitespace. */
  predicate AllSpace(s: string, i: nat, j: nat) {
    i <= j <= |s| && forall k :: i <= k < j ==> IsSpace(s[k])
  }

  /** The end of the run of whitespace that starts at i: the largest j with
      s[i..j] all whitespace. */
  function SkipSpaces(s: string, i: nat): (j: nat)
    requires i <= |s|
    ensures AllSpace(s, i, j)
    ensures j == |s| || !IsSpace(s[j])
    decreases |s| - i
  {
    if i < |s| && IsSpace(s[i]) then SkipSpaces(s, i + 1) else i
  }

  /** The start of the run of whitespace that ends at j, not going below lo:
      the smallest i >= lo with s[i..j] all whitespace. */
  function SkipSpacesBack(s: string, lo: nat, j: nat): (i: nat)
    requires lo <= j <= |s|
    ensures lo <= i && AllSpace(s, i, j)
    ensures i == lo || !IsSpace(s[i - 1])
    decreases j
  {
    if lo < j && IsSpace(s[j - 1]) then SkipSpacesBack(s, lo, j - 1) else j
  }

  /** A whitespace run is determined by where it starts: any end k of a run
      from i at which whitespace stops is the one SkipSpaces finds. */
  lemma SkipSpacesUnique(s: string, i: nat, k: nat)
    requires AllSpace(s, i, k)
    requires k == |s| || !IsSpace(s[k])
    ensures SkipSpaces(s, i) == k
  {
  }

  /** Python's `s.strip()`: s without its leading and trailing whitespace. */
  function Strip(s: string): (r: string)
    ensures |r| <= |s|
    ensures r == [] || (!IsSpace(r[0]) && !IsSpace(r[|r| - 1]))
    ensures exists i: nat, j: nat :: StripsTo(s, i, j) && r == s[i..j]
  {
    var i := SkipSpaces(s, 0);
    var j := SkipSpacesBack(s, i, |s|);
    assert StripsTo(s, i, j);
    s[i..j]
  }

  /** s[i..j] is s with a whitespace prefix s[..i] and a whitespace suffix
      s[j..] removed, and it neither starts nor ends with whitespace. */
  ghost predicate StripsTo(s: string, i: nat, j: nat) {
    && i <= j <= |s|
    && AllSpace(s, 0, i)
    && AllSpace(s, j, |s|)
    && (i == j || (!IsSpace(s[i]) && !IsSpace(s[j - 1])))
  }

  /** The decomposition of StripsTo is unique, so Strip is the only
      function meeting that description: whatever prefix and suffix of
      whitespace are cut off, if what remains is empty or starts and ends
      with non-whitespace, it is Strip(s). */
  lemma StripUnique(s: string, i: nat, j: nat)
    requires StripsTo(s, i, j)
    ensures Strip(s) == s[i..j]
  {
    var i0 := SkipSpaces(s, 0);
    var j0 := SkipSpacesBack(s, i0, |s|);
    if i == j {
      // everything is whitespace
      assert AllSpace(s, 0, |s|) by {
        forall k | 0 <= k < |s| ensures IsSpace(s[k]) {
          if k < i { assert AllSpace(s, 0, i); } else { assert AllSpace(s, j, |s|); }
        }
      }
      SkipSpacesUnique(s, 0, |s|);
      assert i0 == |s| && j0 == |s|;
    } else {
      SkipSpacesUnique(s, 0, i);
      assert i0 == i;
    }
  }

  /** Stripping a string that does not start or end with whitespace
      changes nothing. */
  lemma StripNoOp(s: string)
    requires s == [] || (!IsSpace(s[0]) && !IsSpace(s[|s| - 1]))
    ensures Strip(s) == s
  {
    assert StripsTo(s, 0, |s|);
    StripUnique(s, 0, |s|);
    assert s[0..|s|] == s;
  }

  /** Stripping twice is stripping once. */
  lemma StripIdempotent(s: string)
    ensures Strip(Strip(s)) == Strip(s)
  {
    StripNoOp(Strip(s));
  }

  /** Whitespace added on either side is removed again. */
  lemma StripPadding(w1: string, s: string, w2: string)
    requires AllSpace(w1, 0, |w1|) && AllSpace(w2, 0, |w2|)
    ensures Strip(w1 + s + w2) == Strip(s)
  {
    var t := w1 + s + w2;
    var r := Strip(s);
    var i: nat, j: nat :| StripsTo(s, i, j) && r == s[i..j];
    var lo, hi := |w1| + i, |w1| + j;
    assert AllSpace(t, 0, lo) by {
      forall k | 0 <= k < lo ensures IsSpace(t[k]) {
        if k < |w1| {
          assert t[k] == w1[k];
        } else {
          assert t[k] == s[k - |w1|];
        }
      }
    }
    assert AllSpace(t, hi, |t|) by {
      forall k | hi <= k < |t| ensures IsSpace(t[k]) {
        if k < |w1| + |s| {
          assert t[k] == s[k - |w1|];
        } else {
          assert t[k] == w2[k - |w1| - |s|];
        }
      }
    }
    assert t[lo..hi] == s[i..j];
    assert StripsTo(t, lo, hi);
    StripUnique(t, lo, hi);
  }
}

/**
 * Character classes and the three string clean-ups the scraper applies to the
 * cells it finds: deleting whitespace and colons from a label, stripping a value,
 * and finding the first run of digits and dots in a value.
 */
module Text {
  import opened Wrappers

  /** Python's `str.isspace()` set, which is both what `\s` matches in a `str`
      pattern and what `str.strip()` removes. */
  predicate IsSpace(c: char) {
    || ('\U{9}' <= c <= '\U{D}')
    || ('\U{1C}' <= c <= '\U{20}')
    || c == '\U{85}' || c == '\U{A0}' || c == '\U{1680}'
    || ('\U{2000}' <= c <= '\U{200A}')
    || c == '\U{2028}' || c == '\U{2029}' || c == '\U{202F}'
    || c == '\U{205F}' || c == '\U{3000}'
  }

  /** `\d`, restricted to the ASCII digits. */
  predicate IsDigit(c: char) {
    '0' <= c <= '9'
  }

  /** The character class `[\d.]`. */
  predicate IsNumChar(c: char) {
    IsDigit(c) || c == '.'
  }

  /** The character class `[\s：:]` whose members are deleted from a label. */
  predicate IsLabelNoise(c: char) {
    IsSpace(c) || c == ':' || c == '：'
  }

  predicate AllSpace(s: string) {
    forall k | 0 <= k < |s| :: IsSpace(s[k])
  }

  /** The character classes whose runs are measured with `RunEnd`: `\s` and `[\d.]`. */
  datatype CharClass = Spaces | NumChars

  predicate InClass(c: char, k: CharClass) {
    match k
    case Spaces => IsSpace(c)
    case NumChars => IsNumChar(c)
  }

  /** The end of the longest run of class-`k` characters starting at `i`:
      what a greedy `k*` consumes. It stops at the end of `s` or at the first
      character outside the class; `RunEndRun` says the run lies inside it. */
  function RunEnd(s: string, i: nat, k: CharClass): (j: nat)
    requires i <= |s|
    ensures i <= j <= |s|
    ensures j == |s| || !InClass(s[j], k)
    decreases |s| - i
  {
    if i < |s| && InClass(s[i], k) then RunEnd(s, i + 1, k) else i
  }

  /** Every character `RunEnd` skips belongs to the class. */
  lemma {:induction false} RunEndRun(s: string, i: nat, k: CharClass)
    requires i <= |s|
    ensures forall m | i <= m < RunEnd(s, i, k) :: InClass(s[m], k)
    decreases |s| - i
  {
    if i < |s| && InClass(s[i], k) {
      RunEndRun(s, i + 1, k);
    }
  }

  /** A greedy run has exactly one possible end: any `j` with the run property is it. */
  lemma RunEndUnique(s: string, i: nat, j: nat, k: CharClass)
    requires i <= j <= |s|
    requires forall m | i <= m < j :: InClass(s[m], k)
    requires j == |s| || !InClass(s[j], k)
    ensures RunEnd(s, i, k) == j
  {
    RunEndRun(s, i, k);
  }

  // ---------------------------------------------------------------------------
  // Label cleaning: re.sub(r'[\s：:]+', '', label)
  // ---------------------------------------------------------------------------

  /** Deletes every whitespace character, `:` and `：` from a label. */
  function CleanLabel(s: string): (r: string)
    ensures forall k | 0 <= k < |r| :: !IsLabelNoise(r[k])
    ensures |r| <= |s|
  {
    if s == [] then []
    else (if IsLabelNoise(s[0]) then [] else [s[0]]) + CleanLabel(s[1..])
  }

  /** Cleaning works character by character: it distributes over concatenation. */
  lemma {:induction false} CleanLabelAppend(a: string, b: string)
    ensures CleanLabel(a + b) == CleanLabel(a) + CleanLabel(b)
    decreases |a|
  {
    if a == [] {
      assert a + b == b;
    } else {
      assert (a + b)[0] == a[0];
      assert (a + b)[1..] == a[1..] + b;
      CleanLabelAppend(a[1..], b);
    }
  }

  /** Cleaning deletes exactly the noise characters: every other character keeps
      its number of occurrences, and no noise character survives. */
  lemma {:induction false} CleanLabelCounts(s: string, c: char)
    ensures multiset(CleanLabel(s))[c] == if IsLabelNoise(c) then 0 else multiset(s)[c]
    decreases |s|
  {
    if s != [] {
      CleanLabelCounts(s[1..], c);
      assert s == [s[0]] + s[1..];
    }
  }

  /** A label is left unchanged exactly when it holds no noise character; in
      particular cleaning is idempotent. */
  lemma {:induction false} CleanLabelFixpoint(s: string)
    ensures CleanLabel(s) == s <==> forall k | 0 <= k < |s| :: !IsLabelNoise(s[k])
    decreases |s|
  {
    if s != [] {
      CleanLabelFixpoint(s[1..]);
      if IsLabelNoise(s[0]) {
        assert |CleanLabel(s)| < |s| by {
          assert |CleanLabel(s[1..])| <= |s[1..]|;
        }
      } else {
        assert CleanLabel(s) == [s[0]] + CleanLabel(s[1..]);
        if forall k | 0 <= k < |s| :: !IsLabelNoise(s[k]) {
          assert forall k | 0 <= k < |s[1..]| :: !IsLabelNoise(s[1..][k]) by {
            forall k | 0 <= k < |s[1..]| ensures !IsLabelNoise(s[1..][k]) {
              assert s[1..][k] == s[k + 1];
            }
          }
        }
        if CleanLabel(s) == s {
          assert CleanLabel(s[1..]) == s[1..];
          assert forall k | 0 <= k < |s| :: !IsLabelNoise(s[k]) by {
            forall k | 0 <= k < |s| ensures !IsLabelNoise(s[k]) {
              if k > 0 { assert s[k] == s[1..][k - 1]; }
            }
          }
        }
      }
    }
  }

  lemma CleanLabelIdempotent(s: string)
    ensures CleanLabel(CleanLabel(s)) == CleanLabel(s)
  {
    CleanLabelFixpoint(CleanLabel(s));
  }

  // ---------------------------------------------------------------------------
  // Value stripping: value.strip()
  // ---------------------------------------------------------------------------

  /** Drops leading whitespace. */
  function StripStart(s: string): (r: string)
    ensures |r| <= |s| && r == s[|s| - |r|..]
    ensures AllSpace(s[..|s| - |r|])
    ensures r == [] || !IsSpace(r[0])
  {
    if s != [] && IsSpace(s[0]) then
      var r := StripStart(s[1..]);
      assert s[..|s| - |r|] == [s[0]] + s[1..][..|s[1..]| - |r|];
      r
    else s
  }

  /** Drops trailing whitespace. */
  function StripEnd(s: string): (r: string)
    ensures |r| <= |s| && r == s[..|r|]
    ensures AllSpace(s[|r|..])
    ensures r == [] || !IsSpace(r[|r| - 1])
  {
    if s != [] && IsSpace(s[|s| - 1]) then
      var r := StripEnd(s[..|s| - 1]);
      assert s[|r|..] == s[..|s| - 1][|r|..] + [s[|s| - 1]];
      r
    else s
  }

  /** `s[i..i + |mid|]` is `mid`, with only whitespace around it in `s`. */
  ghost predicate PaddedAt(s: string, i: nat, mid: string) {
    && i + |mid| <= |s|
    && s[i..i + |mid|] == mid
    && AllSpace(s[..i])
    && AllSpace(s[i + |mid|..])
  }

  /** Python's `str.strip()`: the result is a slice of the input surrounded only
      by whitespace, and it neither starts nor ends with whitespace. */
  function Strip(s: string): (r: string)
    ensures exists i :: PaddedAt(s, i, r)
    ensures r == [] || (!IsSpace(r[0]) && !IsSpace(r[|r| - 1]))
  {
    var t := StripStart(s);
    var r := StripEnd(t);
    var i := |s| - |t|;
    assert s[i..i + |r|] == r;
    assert s[i + |r|..] == t[|r|..];
    assert PaddedAt(s, i, r);
    r
  }

  /** A padded slice that starts with a non-space begins at the first non-space of `s`. */
  lemma PaddedStart(s: string, i: nat, mid: string)
    requires PaddedAt(s, i, mid) && mid != [] && !IsSpace(mid[0])
    ensures i == RunEnd(s, 0, Spaces)
  {
    assert s[i] == s[i..i + |mid|][0];
    forall m | 0 <= m < i ensures InClass(s[m], Spaces) {
      assert s[m] == s[..i][m];
    }
    RunEndUnique(s, 0, i, Spaces);
  }

  /** Two padded slices starting at the same place, both ending in a non-space, end together. */
  lemma PaddedSameEnd(s: string, i: nat, a: string, b: string)
    requires PaddedAt(s, i, a) && a != [] && !IsSpace(a[|a| - 1])
    requires PaddedAt(s, i, b) && b != [] && !IsSpace(b[|b| - 1])
    ensures a == b
  {
    var ea, eb := i + |a|, i + |b|;
    assert s[ea - 1] == s[i..ea][|a| - 1];
    assert s[eb - 1] == s[i..eb][|b| - 1];
  }

  /** When an empty slice is padded, every character of `s` is whitespace, so no
      padded slice starts with a non-space. */
  lemma PaddedEmpty(s: string, i: nat, j: nat, mid: string)
    requires PaddedAt(s, i, [])
    requires PaddedAt(s, j, mid) && mid != []
    ensures IsSpace(mid[0])
  {
    assert mid[0] == s[j..j + |mid|][0];
    if j < i {
      assert s[j] == s[..i][j];
    } else {
      assert s[j] == s[i..][j - i];
    }
  }

  /** The two properties in `Strip`'s contract pin its result down: whatever
      slice has them is what `strip()` returns. */
  lemma StripUnique(s: string, i: nat, mid: string)
    requires PaddedAt(s, i, mid)
    requires mid == [] || (!IsSpace(mid[0]) && !IsSpace(mid[|mid| - 1]))
    ensures Strip(s) == mid
  {
    var r := Strip(s);
    var i' :| PaddedAt(s, i', r);
    if mid == [] && r != [] {
      PaddedEmpty(s, i, i', r);
    } else if mid != [] && r == [] {
      PaddedEmpty(s, i', i, mid);
    } else if mid != [] {
      PaddedStart(s, i, mid);
      PaddedStart(s, i', r);
      PaddedSameEnd(s, i, mid, r);
    }
  }

  lemma StripIdempotent(s: string)
    ensures Strip(Strip(s)) == Strip(s)
  {
    var r := Strip(s);
    assert r[0..|r|] == r;
    assert PaddedAt(r, 0, r);
    StripUnique(r, 0, r);
  }

  // ---------------------------------------------------------------------------
  // First number: re.search(r'([\d.]+)', value).group(1)
  // ---------------------------------------------------------------------------

  /** `run` is the leftmost maximal run of `[\d.]` in `s`, and it starts at `i`. */
  ghost predicate LeftmostRunAt(s: string, i: nat, run: string) {
    && run != []
    && i + |run| <= |s|
    && s[i..i + |run|] == run
    && (forall m | 0 <= m < i :: !IsNumChar(s[m]))
    && (forall m | 0 <= m < |run| :: IsNumChar(run[m]))
    && (i + |run| == |s| || !IsNumChar(s[i + |run|]))
  }

  /** What `re.search(r'([\d.]+)', s)` captures, or `None` when it finds no match. */
  function FirstNumber(s: string): (r: Option<string>)
    ensures r.None? <==> forall m | 0 <= m < |s| :: !IsNumChar(s[m])
    ensures r.Some? ==> exists i :: LeftmostRunAt(s, i, r.value)
  {
    if s == [] then None
    else if IsNumChar(s[0]) then
      var j := RunEnd(s, 0, NumChars);
      assert LeftmostRunAt(s, 0, s[..j]) by {
        RunEndRun(s, 0, NumChars);
        assert InClass(s[0], NumChars);
        forall m | 0 <= m < j ensures IsNumChar(s[..j][m]) {
          assert InClass(s[m], NumChars);
        }
      }
      Some(s[..j])
    else
      var r := FirstNumber(s[1..]);
      assert r.None? <==> forall m | 0 <= m < |s| :: !IsNumChar(s[m]) by {
        forall m | 0 < m < |s| ensures s[m] == s[1..][m - 1] {
        }
      }
      assert r.Some? ==> exists i :: LeftmostRunAt(s, i, r.value) by {
        if r.Some? {
          var i: nat :| LeftmostRunAt(s[1..], i, r.value);
          assert s[i + 1..i + 1 + |r.value|] == s[1..][i..i + |r.value|];
          assert LeftmostRunAt(s, i + 1, r.value);
        }
      }
      r
  }

  /** A leftmost maximal run is what the search returns. */
  lemma {:induction false} FirstNumberUnique(s: string, i: nat, run: string)
    requires LeftmostRunAt(s, i, run)
    ensures FirstNumber(s) == Some(run)
  {
    if i == 0 {
      assert IsNumChar(s[0]) by { assert s[0] == run[0]; }
      forall m | 0 <= m < |run| ensures InClass(s[m], NumChars) {
        assert s[m] == run[m];
      }
      RunEndUnique(s, 0, |run|, NumChars);
    } else {
      assert s[1..][i - 1..i - 1 + |run|] == s[i..i + |run|];
      assert LeftmostRunAt(s[1..], i - 1, run);
      FirstNumberUnique(s[1..], i - 1, run);
    }
  }

  /** The captured run is made of digits and points only. */
  lemma FirstNumberChars(s: string, run: string)
    requires FirstNumber(s) == Some(run)
    ensures run != [] && forall k | 0 <= k < |run| :: IsNumChar(run[k])
  {
    var i :| LeftmostRunAt(s, i, run);
  }
}

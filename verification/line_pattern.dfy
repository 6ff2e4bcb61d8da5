/** The first substitution of removeComments: every match of the pattern
    %(#|;|(//)).*% is replaced by the empty string. A match starts at '#',
    ';' or "//"; then `.*` runs up to, not including, the next '\n', because
    without the `s` modifier PCRE's `.` matches every character except '\n'
    (so a '\r' before the newline goes with the comment). Matches are found
    left to right and scanning resumes where the previous match ended. */
module LinePattern {
  import opened Subsequences

  /** A match of the line pattern can start at index i. */
  predicate LineMarkerAt(s: string, i: nat)
    requires i < |s|
  {
    s[i] == '#' || s[i] == ';' || (s[i] == '/' && i + 1 < |s| && s[i + 1] == '/')
  }

  /** No '#', no ';' and no two adjacent '/'. */
  predicate LineMarkerFree(s: string)
  {
    forall i :: 0 <= i < |s| ==> !LineMarkerAt(s, i)
  }

  /** Where `.*` started at i stops: the first '\n' at or after i, or the end. */
  function LineEnd(s: string, i: nat): (e: nat)
    requires i <= |s|
    ensures i <= e <= |s|
    ensures e < |s| ==> s[e] == '\n'
    ensures forall k :: i <= k < e ==> s[k] != '\n'
    decreases |s| - i
  {
    if i == |s| || s[i] == '\n' then i else LineEnd(s, i + 1)
  }

  /** The replace-all scan over s[i..]. */
  function LinePassFrom(s: string, i: nat): string
    requires i <= |s|
    decreases |s| - i
  {
    if i == |s| then []
    else if LineMarkerAt(s, i) then LinePassFrom(s, LineEnd(s, i))
    else [s[i]] + LinePassFrom(s, i + 1)
  }

  /** The line pass only deletes characters, and what it leaves holds no marker. */
  function LinePass(s: string): (r: string)
    ensures IsSubsequence(r, s)
    ensures LineMarkerFree(r)
  {
    LinePassOnlyDeletes(s, 0);
    LinePassMarkerFree(s, 0);
    assert s[0..] == s;
    LinePassFrom(s, 0)
  }

  lemma LineEndIs(s: string, i: nat, e: nat)
    requires i <= e <= |s|
    requires e < |s| ==> s[e] == '\n'
    requires forall k :: i <= k < e ==> s[k] != '\n'
    ensures LineEnd(s, i) == e
  {
  }

  lemma LineMarkerFreeCons(c: char, t: string)
    ensures LineMarkerFree([c] + t) <==>
      c != '#' && c != ';' && !(c == '/' && t != [] && t[0] == '/') && LineMarkerFree(t)
  {
    var s := [c] + t;
    forall k | 0 <= k < |t|
      ensures LineMarkerAt(s, k + 1) == LineMarkerAt(t, k)
    {
    }
    if LineMarkerFree(s) {
      assert !LineMarkerAt(s, 0);
      forall k | 0 <= k < |t| ensures !LineMarkerAt(t, k) {
        assert !LineMarkerAt(s, k + 1);
      }
    }
    if c != '#' && c != ';' && !(c == '/' && t != [] && t[0] == '/') && LineMarkerFree(t) {
      forall k | 0 <= k < |s| ensures !LineMarkerAt(s, k) {
        if k > 0 {
          assert !LineMarkerAt(t, k - 1);
        }
      }
    }
  }

  /** What the scan from i emits first: the newline that ended a comment, or s[i] itself. */
  lemma LinePassFirst(s: string, i: nat)
    requires i <= |s|
    ensures var r := LinePassFrom(s, i);
      r != [] ==> i < |s| && (r[0] == '\n' || (!LineMarkerAt(s, i) && r[0] == s[i]))
  {
    if i < |s| && LineMarkerAt(s, i) {
      var e := LineEnd(s, i);
      if e < |s| {
        assert !LineMarkerAt(s, e);
        assert LinePassFrom(s, e) == [s[e]] + LinePassFrom(s, e + 1);
      }
    }
  }

  /** The pass deletes characters and never adds or reorders any. */
  lemma {:induction false} LinePassOnlyDeletes(s: string, i: nat)
    requires i <= |s|
    ensures IsSubsequence(LinePassFrom(s, i), s[i..])
    decreases |s| - i
  {
    if i < |s| {
      if LineMarkerAt(s, i) {
        var e := LineEnd(s, i);
        LinePassOnlyDeletes(s, e);
        SubsequenceDropPrefix(LinePassFrom(s, e), s[i..e], s[e..]);
        assert s[i..e] + s[e..] == s[i..];
      } else {
        LinePassOnlyDeletes(s, i + 1);
        SubsequenceCons(s[i], LinePassFrom(s, i + 1), s[i + 1..]);
        assert [s[i]] + s[i + 1..] == s[i..];
      }
    }
  }

  /** No '#', ';' or "//" survives the pass, not even one formed by a deletion. */
  lemma {:induction false} LinePassMarkerFree(s: string, i: nat)
    requires i <= |s|
    ensures LineMarkerFree(LinePassFrom(s, i))
    decreases |s| - i
  {
    if i < |s| {
      if LineMarkerAt(s, i) {
        LinePassMarkerFree(s, LineEnd(s, i));
      } else {
        var t := LinePassFrom(s, i + 1);
        LinePassMarkerFree(s, i + 1);
        LinePassFirst(s, i + 1);
        LineMarkerFreeCons(s[i], t);
      }
    }
  }

  /** Text without markers is copied through unchanged. */
  lemma {:induction false} LinePassSkipsClean(s: string, i: nat, j: nat)
    requires i <= j <= |s|
    requires forall k :: i <= k < j ==> !LineMarkerAt(s, k)
    ensures LinePassFrom(s, i) == s[i..j] + LinePassFrom(s, j)
    decreases j - i
  {
    if i < j {
      assert !LineMarkerAt(s, i);
      var rest := LinePassFrom(s, j);
      calc {
        LinePassFrom(s, i);
        [s[i]] + LinePassFrom(s, i + 1);
        { LinePassSkipsClean(s, i + 1, j); }
        [s[i]] + (s[i + 1..j] + rest);
        ([s[i]] + s[i + 1..j]) + rest;
        { assert [s[i]] + s[i + 1..j] == s[i..j]; }
        s[i..j] + rest;
      }
    }
  }

  /** The leftmost marker at m starts the next match: everything from m up to
      the next newline is deleted, and scanning resumes at that newline. */
  lemma LinePassCutsAtMarker(s: string, i: nat, m: nat)
    requires i <= m < |s| && LineMarkerAt(s, m)
    requires forall k :: i <= k < m ==> !LineMarkerAt(s, k)
    ensures LinePassFrom(s, i) == s[i..m] + LinePassFrom(s, LineEnd(s, m))
  {
    LinePassSkipsClean(s, i, m);
  }

  /** Text with no '#', ';' or "//" is a fixed point of the pass. */
  lemma LinePassUnchanged(s: string)
    requires LineMarkerFree(s)
    ensures LinePass(s) == s
  {
    LinePassSkipsClean(s, 0, |s|);
    assert s[0..|s|] == s;
  }

  /** The first index in [i, e) where a match can start, or e when there is none. */
  function FirstLineMarker(s: string, i: nat, e: nat): (m: nat)
    requires i <= e <= |s|
    ensures i <= m <= e
    ensures m < e ==> LineMarkerAt(s, m)
    ensures forall k :: i <= k < m ==> !LineMarkerAt(s, k)
    decreases e - i
  {
    if i == e then e
    else if LineMarkerAt(s, i) then i
    else FirstLineMarker(s, i + 1, e)
  }

  /** A line-oriented reading of the pass: each line keeps the text before its
      first marker, and every newline is kept. */
  function LineByLine(s: string, i: nat): string
    requires i <= |s|
    decreases |s| - i
  {
    if i == |s| then []
    else
      var e := LineEnd(s, i);
      s[i..FirstLineMarker(s, i, e)] + (if e < |s| then "\n" + LineByLine(s, e + 1) else [])
  }

  /** The character scan and the line-oriented reading agree on every input. */
  lemma {:induction false} LinePassIsLineByLine(s: string, i: nat)
    requires i <= |s|
    ensures LinePassFrom(s, i) == LineByLine(s, i)
    decreases |s| - i
  {
    if i < |s| {
      var e := LineEnd(s, i);
      var m := FirstLineMarker(s, i, e);
      LinePassSkipsClean(s, i, m);
      if m < e {
        LineEndIs(s, m, e);
        assert LinePassFrom(s, m) == LinePassFrom(s, e);
      }
      if e < |s| {
        assert !LineMarkerAt(s, e);
        assert LinePassFrom(s, e) == "\n" + LinePassFrom(s, e + 1);
        LinePassIsLineByLine(s, e + 1);
      }
    }
  }

  lemma LineEndShift(a: string, b: string, i: nat)
    requires i <= |b|
    ensures LineEnd(a + b, |a| + i) == |a| + LineEnd(b, i)
  {
    var s := a + b;
    var e := LineEnd(b, i);
    forall k | |a| + i <= k < |a| + e
      ensures s[k] != '\n'
    {
      assert s[k] == b[k - |a|];
    }
    if e < |b| {
      assert s[|a| + e] == b[e];
    }
    LineEndIs(s, |a| + i, |a| + e);
  }

  lemma LinePassShiftStep(a: string, b: string, i: nat)
    requires i < |b|
    ensures LinePassFrom(a + b, |a| + i) ==
      if LineMarkerAt(b, i) then LinePassFrom(a + b, |a| + LineEnd(b, i))
      else [b[i]] + LinePassFrom(a + b, |a| + (i + 1))
  {
    var s := a + b;
    var j := |a| + i;
    assert s[j] == b[i];
    if i + 1 < |b| {
      assert s[j + 1] == b[i + 1];
    }
    assert LineMarkerAt(s, j) == LineMarkerAt(b, i);
    if LineMarkerAt(b, i) {
      LineEndShift(a, b, i);
    }
  }

  /** The scan looks only forward: scanning inside b gives the same output
      whatever text precedes it. */
  lemma {:induction false} LinePassFromShift(a: string, b: string, i: nat)
    requires i <= |b|
    ensures LinePassFrom(a + b, |a| + i) == LinePassFrom(b, i)
    decreases |b| - i, 1
  {
    if i < |b| {
      LinePassShiftStep(a, b, i);
      if LineMarkerAt(b, i) {
        LinePassShiftMarker(a, b, i);
      } else {
        LinePassShiftKeep(a, b, i);
      }
    } else {
      assert |a + b| == |a| + i;
    }
  }

  lemma {:induction false} LinePassShiftMarker(a: string, b: string, i: nat)
    requires i < |b| && LineMarkerAt(b, i)
    ensures LinePassFrom(a + b, |a| + LineEnd(b, i)) == LinePassFrom(b, i)
    decreases |b| - i, 0
  {
    var e := LineEnd(b, i);
    assert i < e by {
      assert b[i] != '\n';
    }
    assert LinePassFrom(b, i) == LinePassFrom(b, e);
    LinePassFromShift(a, b, e);
  }

  lemma {:induction false} LinePassShiftKeep(a: string, b: string, i: nat)
    requires i < |b| && !LineMarkerAt(b, i)
    ensures [b[i]] + LinePassFrom(a + b, |a| + (i + 1)) == LinePassFrom(b, i)
    decreases |b| - i, 0
  {
    assert LinePassFrom(b, i) == [b[i]] + LinePassFrom(b, i + 1);
    LinePassFromShift(a, b, i + 1);
  }

  /** A newline at the start of the text is kept. */
  lemma LinePassLeadingNewline(rest: string)
    ensures LinePass("\n" + rest) == "\n" + LinePass(rest)
  {
    var s := "\n" + rest;
    assert !LineMarkerAt(s, 0);
    assert LinePassFrom(s, 0) == "\n" + LinePassFrom(s, 1);
    LinePassFromShift("\n", rest, 0);
  }

  lemma LinePassBeforeNewlineStep(a: string, b: string, i: nat)
    requires i < |a|
    ensures LinePassFrom(a + "\n" + b, i) ==
      if LineMarkerAt(a, i) then LinePassFrom(a + "\n" + b, LineEnd(a, i))
      else [a[i]] + LinePassFrom(a + "\n" + b, i + 1)
  {
    var s := a + "\n" + b;
    assert s[i] == a[i];
    if i + 1 < |a| {
      assert s[i + 1] == a[i + 1];
    } else {
      assert s[i + 1] == '\n';
    }
    assert LineMarkerAt(s, i) == LineMarkerAt(a, i);
    if LineMarkerAt(a, i) {
      var e := LineEnd(a, i);
      forall k | i <= k < e
        ensures s[k] != '\n'
      {
        assert s[k] == a[k];
      }
      assert s[e] == '\n' by {
        if e < |a| {
          assert s[e] == a[e];
        }
      }
      LineEndIs(s, i, e);
    }
  }

  /** Scanning the part of a + "\n" + b that lies in a gives what scanning a
      alone gives: a comment in a stops at the newline after it. */
  lemma {:induction false} LinePassBeforeNewline(a: string, b: string, i: nat)
    requires i <= |a|
    ensures LinePassFrom(a + "\n" + b, i) == LinePassFrom(a, i) + LinePassFrom(a + "\n" + b, |a|)
    decreases |a| - i, 1
  {
    if i < |a| {
      LinePassBeforeNewlineStep(a, b, i);
      if LineMarkerAt(a, i) {
        LinePassBeforeNewlineMarker(a, b, i);
      } else {
        LinePassBeforeNewlineKeep(a, b, i);
      }
    } else {
      assert LinePassFrom(a, i) == [];
    }
  }

  lemma {:induction false} LinePassBeforeNewlineMarker(a: string, b: string, i: nat)
    requires i < |a| && LineMarkerAt(a, i)
    ensures LinePassFrom(a + "\n" + b, LineEnd(a, i))
         == LinePassFrom(a, i) + LinePassFrom(a + "\n" + b, |a|)
    decreases |a| - i, 0
  {
    var e := LineEnd(a, i);
    assert i < e by {
      assert a[i] != '\n';
    }
    assert LinePassFrom(a, i) == LinePassFrom(a, e);
    LinePassBeforeNewline(a, b, e);
  }

  lemma {:induction false} LinePassBeforeNewlineKeep(a: string, b: string, i: nat)
    requires i < |a| && !LineMarkerAt(a, i)
    ensures [a[i]] + LinePassFrom(a + "\n" + b, i + 1)
         == LinePassFrom(a, i) + LinePassFrom(a + "\n" + b, |a|)
    decreases |a| - i, 0
  {
    assert LinePassFrom(a, i) == [a[i]] + LinePassFrom(a, i + 1);
    LinePassBeforeNewline(a, b, i + 1);
  }

  /** A newline is never deleted: the line pass works on the text before it
      and the text after it separately. */
  lemma LinePassKeepsNewline(a: string, b: string)
    ensures LinePass(a + "\n" + b) == LinePass(a) + "\n" + LinePass(b)
  {
    var s := a + "\n" + b;
    LinePassBeforeNewline(a, b, 0);
    assert s == (a + "\n") + b;
    assert s[|a|] == '\n';
    assert LinePassFrom(s, |a|) == "\n" + LinePassFrom(s, |a| + 1);
    LinePassFromShift(a + "\n", b, 0);
  }

  /** A comment that starts with a marker right after marker-free text is
      deleted up to the end of its line; the text before it, and the newline
      that ends it with everything after, are kept. */
  lemma LinePassCutsComment(code: string, comment: string, tail: string)
    requires LineMarkerFree(code)
    requires comment != [] && LineMarkerAt(comment, 0) && '\n' !in comment
    requires !(code != [] && code[|code| - 1] == '/' && comment[0] == '/')
    requires tail == [] || tail[0] == '\n'
    ensures LinePass(code + comment + tail) == code + LinePass(tail)
  {
    var s := code + comment + tail;
    var m := |code|;
    forall k | 0 <= k < m
      ensures !LineMarkerAt(s, k)
    {
      assert !LineMarkerAt(code, k);
      assert s[k] == code[k];
      if k + 1 < m {
        assert s[k + 1] == code[k + 1];
      } else {
        assert s[k + 1] == comment[0];
      }
    }
    LinePassSkipsClean(s, 0, m);
    assert s[0..m] == code;
    assert s[m] == comment[0];
    if comment[0] == '/' {
      assert s[m + 1] == comment[1];
    }
    assert LineMarkerAt(s, m);
    forall k | m <= k < m + |comment|
      ensures s[k] != '\n'
    {
      assert s[k] == comment[k - m];
    }
    LineEndIs(s, m, m + |comment|);
    LinePassFromShift(code + comment, tail, 0);
  }
}

// The second substitution of removeComments: every match of the pattern
// %/\*(?:(?!\*/).)*\*/%s is replaced by the empty string. A match starts at
// "/*"; the body `(?:(?!\*/).)*` takes characters, newlines included (the
// `s` modifier), as long as "*/" does not start at the current position, so
// the match ends with the first "*/" that begins at least two characters
// after the opening '/'. When no such "*/" exists there is no match at that
// position and scanning moves on by one character.
module BlockPattern {
  import opened Wrappers
  import opened Subsequences
  import opened LinePattern

  predicate BlockOpenerAt(s: string, i: nat)
    requires i < |s|
  {
    s[i] == '/' && i + 1 < |s| && s[i + 1] == '*'
  }

  predicate BlockCloserAt(s: string, j: nat)
    requires j < |s|
  {
    s[j] == '*' && j + 1 < |s| && s[j + 1] == '/'
  }

  // No "/*" is followed, two or more characters later, by a "*/": the
  // pattern has no match anywhere in s.
  predicate NoClosedBlock(s: string)
  {
    forall i, j :: 0 <= i && i + 2 <= j < |s| ==> !(BlockOpenerAt(s, i) && BlockCloserAt(s, j))
  }

  // The first "*/" starting at or after `from`, if any.
  function FindCloser(s: string, from: nat): (r: Option<nat>)
    requires from <= |s|
    ensures r.Some? ==> from <= r.value < |s| && BlockCloserAt(s, r.value)
    ensures r.Some? ==> forall k :: from <= k < r.value ==> !BlockCloserAt(s, k)
    ensures r.None? ==> forall k :: from <= k < |s| ==> !BlockCloserAt(s, k)
    decreases |s| - from
  {
    if from == |s| then None
    else if BlockCloserAt(s, from) then Some(from)
    else FindCloser(s, from + 1)
  }

  // The pattern matches at i: a "/*" with a "*/" somewhere after it.
  predicate ClosedBlockAt(s: string, i: nat)
    requires i < |s|
  {
    BlockOpenerAt(s, i) && FindCloser(s, i + 2).Some?
  }

  // The replace-all scan over s[i..].
  function BlockPassFrom(s: string, i: nat): string
    requires i <= |s|
    decreases |s| - i
  {
    if i == |s| then []
    else if ClosedBlockAt(s, i) then BlockPassFrom(s, FindCloser(s, i + 2).value + 2)
    else [s[i]] + BlockPassFrom(s, i + 1)
  }

  // The block pass only deletes characters. Applied to text with no
  // '#', ';' or "//", it leaves no such marker and no complete block comment.
  function BlockPass(s: string): (r: string)
    ensures IsSubsequence(r, s)
    ensures LineMarkerFree(s) ==> LineMarkerFree(r) && NoClosedBlock(r)
  {
    BlockPassOnlyDeletes(s, 0);
    assert s[0..] == s;
    if LineMarkerFree(s) then
      BlockPassKeepsLineMarkerFree(s, 0);
      BlockPassComplete(s, 0);
      BlockPassFrom(s, 0)
    else
      BlockPassFrom(s, 0)
  }

  // What the scan from i emits first is s[i], unless s[i] opens a block comment.
  lemma BlockPassFirst(s: string, i: nat)
    requires i <= |s|
    ensures var r := BlockPassFrom(s, i);
      r != [] ==> i < |s| && (r[0] == s[i] || s[i] == '/')
  {
  }

  // The pass deletes characters and never adds or reorders any.
  lemma {:induction false} BlockPassOnlyDeletes(s: string, i: nat)
    requires i <= |s|
    ensures IsSubsequence(BlockPassFrom(s, i), s[i..])
    decreases |s| - i
  {
    if i < |s| {
      if ClosedBlockAt(s, i) {
        var e := FindCloser(s, i + 2).value + 2;
        BlockPassOnlyDeletes(s, e);
        SubsequenceDropPrefix(BlockPassFrom(s, e), s[i..e], s[e..]);
        assert s[i..e] + s[e..] == s[i..];
      } else {
        BlockPassOnlyDeletes(s, i + 1);
        SubsequenceCons(s[i], BlockPassFrom(s, i + 1), s[i + 1..]);
        assert [s[i]] + s[i + 1..] == s[i..];
      }
    }
  }

  // Text where no complete block comment starts is copied through unchanged.
  lemma {:induction false} BlockPassSkipsOpen(s: string, i: nat, j: nat)
    requires i <= j <= |s|
    requires forall k :: i <= k < j ==> !ClosedBlockAt(s, k)
    ensures BlockPassFrom(s, i) == s[i..j] + BlockPassFrom(s, j)
    decreases j - i
  {
    if i < j {
      assert !ClosedBlockAt(s, i);
      var rest := BlockPassFrom(s, j);
      calc {
        BlockPassFrom(s, i);
        [s[i]] + BlockPassFrom(s, i + 1);
        { BlockPassSkipsOpen(s, i + 1, j); }
        [s[i]] + (s[i + 1..j] + rest);
        ([s[i]] + s[i + 1..j]) + rest;
        { assert [s[i]] + s[i + 1..j] == s[i..j]; }
        s[i..j] + rest;
      }
    }
  }

  // The leftmost "/*" at m whose text is followed by a "*/" at c (the
  // first one starting at m + 2 or later): everything from m through that
  // "*/" is deleted, newlines included, and scanning resumes after it.
  lemma BlockPassCutsBlock(s: string, i: nat, m: nat, c: nat)
    requires i <= m && m + 2 <= c < |s|
    requires forall k :: i <= k < m ==> !BlockOpenerAt(s, k)
    requires BlockOpenerAt(s, m) && BlockCloserAt(s, c)
    requires forall k :: m + 2 <= k < c ==> !BlockCloserAt(s, k)
    ensures BlockPassFrom(s, i) == s[i..m] + BlockPassFrom(s, c + 2)
  {
    BlockPassSkipsOpen(s, i, m);
    assert FindCloser(s, m + 2) == Some(c);
  }

  // A "/*" at m with no "*/" after it is left alone, and so is all text
  // after it.
  lemma BlockPassLeavesUnterminated(s: string, i: nat, m: nat)
    requires i <= m < |s|
    requires forall k :: i <= k < m ==> !BlockOpenerAt(s, k)
    requires BlockOpenerAt(s, m)
    requires forall k :: m + 2 <= k < |s| ==> !BlockCloserAt(s, k)
    ensures BlockPassFrom(s, i) == s[i..]
  {
    forall k | i <= k < |s|
      ensures !ClosedBlockAt(s, k)
    {
      if k >= m && BlockOpenerAt(s, k) {
        assert FindCloser(s, k + 2).None?;
      }
    }
    BlockPassSkipsOpen(s, i, |s|);
  }

  // Text with no complete block comment is a fixed point of the pass.
  lemma BlockPassUnchanged(s: string)
    requires NoClosedBlock(s)
    ensures BlockPass(s) == s
  {
    forall k | 0 <= k < |s|
      ensures !ClosedBlockAt(s, k)
    {
    }
    BlockPassSkipsOpen(s, 0, |s|);
    assert s[0..|s|] == s;
  }

  // Text with no "/*" at all is a fixed point of the pass.
  lemma BlockPassNoOpener(s: string)
    requires forall k :: 0 <= k < |s| ==> !BlockOpenerAt(s, k)
    ensures BlockPass(s) == s
  {
    BlockPassUnchanged(s);
  }

  // Two texts without "/*" make one without "/*" unless the first ends in
  // '/' and the second starts with '*'.
  lemma NoOpenerJoin(a: string, b: string)
    requires forall k :: 0 <= k < |a| ==> !BlockOpenerAt(a, k)
    requires forall k :: 0 <= k < |b| ==> !BlockOpenerAt(b, k)
    requires a == [] || b == [] || a[|a| - 1] != '/' || b[0] != '*'
    ensures forall k :: 0 <= k < |a + b| ==> !BlockOpenerAt(a + b, k)
  {
    var s := a + b;
    forall k | 0 <= k < |s|
      ensures !BlockOpenerAt(s, k)
    {
      if k < |a| {
        assert s[k] == a[k];
        if k + 1 < |a| {
          assert s[k + 1] == a[k + 1];
          assert !BlockOpenerAt(a, k);
        } else if k + 1 < |s| {
          assert s[k + 1] == b[0];
        }
      } else {
        assert s[k] == b[k - |a|];
        if k + 1 < |s| {
          assert s[k + 1] == b[k + 1 - |a|];
        }
        assert !BlockOpenerAt(b, k - |a|);
      }
    }
  }

  // Deleting a block comment never joins two characters into a new '#',
  // ';' or "//" when the input held none.
  lemma {:induction false} BlockPassKeepsLineMarkerFree(s: string, i: nat)
    requires i <= |s| && LineMarkerFree(s)
    ensures LineMarkerFree(BlockPassFrom(s, i))
    decreases |s| - i
  {
    if i < |s| {
      if ClosedBlockAt(s, i) {
        BlockPassKeepsLineMarkerFree(s, FindCloser(s, i + 2).value + 2);
      } else {
        var v := BlockPassFrom(s, i + 1);
        BlockPassKeepsLineMarkerFree(s, i + 1);
        BlockPassFirst(s, i + 1);
        assert !LineMarkerAt(s, i);
        if i + 1 < |s| {
          assert !LineMarkerAt(s, i + 1);
        }
        LineMarkerFreeCons(s[i], v);
      }
    }
  }

  lemma NoClosedBlockCons(c: char, v: string)
    requires NoClosedBlock(v)
    requires c == '/' && v != [] && v[0] == '*' ==> forall j :: 1 <= j < |v| ==> !BlockCloserAt(v, j)
    ensures NoClosedBlock([c] + v)
  {
    var t := [c] + v;
    forall i, j | 0 <= i && i + 2 <= j < |t|
      ensures !(BlockOpenerAt(t, i) && BlockCloserAt(t, j))
    {
      assert BlockCloserAt(t, j) == BlockCloserAt(v, j - 1);
      if i > 0 {
        assert BlockOpenerAt(t, i) == BlockOpenerAt(v, i - 1);
      }
    }
  }

  // On text with no "//", one pass removes every block comment: what is
  // left holds no "/*" followed by a "*/".
  lemma {:induction false} BlockPassComplete(s: string, i: nat)
    requires i <= |s| && LineMarkerFree(s)
    ensures NoClosedBlock(BlockPassFrom(s, i))
    decreases |s| - i
  {
    if i < |s| {
      if ClosedBlockAt(s, i) {
        BlockPassComplete(s, FindCloser(s, i + 2).value + 2);
      } else {
        var v := BlockPassFrom(s, i + 1);
        BlockPassComplete(s, i + 1);
        if s[i] == '/' && v != [] && v[0] == '*' {
          BlockPassFirst(s, i + 1);
          assert !LineMarkerAt(s, i);
          assert s[i + 1] == '*';
          assert FindCloser(s, i + 2).None?;
          forall k | i + 1 <= k < |s|
            ensures !ClosedBlockAt(s, k)
          {
            if BlockOpenerAt(s, k) {
              assert FindCloser(s, k + 2).None?;
            }
          }
          BlockPassSkipsOpen(s, i + 1, |s|);
          assert v == s[i + 1..];
          forall j | 1 <= j < |v|
            ensures !BlockCloserAt(v, j)
          {
            assert BlockCloserAt(v, j) == BlockCloserAt(s, i + 1 + j);
          }
        }
        NoClosedBlockCons(s[i], v);
      }
    }
  }

  // The search for "*/" looks only forward: searching inside b finds the same
  // closer whatever text precedes it.
  lemma FindCloserShift(a: string, b: string, i: nat)
    requires i <= |b|
    ensures FindCloser(a + b, |a| + i).Some? == FindCloser(b, i).Some?
    ensures FindCloser(b, i).Some? ==> FindCloser(a + b, |a| + i).value == |a| + FindCloser(b, i).value
  {
    var s := a + b;
    forall k | i <= k < |b|
      ensures BlockCloserAt(s, |a| + k) == BlockCloserAt(b, k)
    {
    }
    var r := FindCloser(b, i);
    if r.Some? {
      assert BlockCloserAt(s, |a| + r.value);
      forall k | |a| + i <= k < |a| + r.value
        ensures !BlockCloserAt(s, k)
      {
        assert !BlockCloserAt(b, k - |a|);
      }
    } else {
      forall k | |a| + i <= k < |s|
        ensures !BlockCloserAt(s, k)
      {
        assert !BlockCloserAt(b, k - |a|);
      }
    }
  }

  lemma ClosedBlockAtShift(a: string, b: string, i: nat)
    requires i < |b|
    ensures ClosedBlockAt(a + b, |a| + i) == ClosedBlockAt(b, i)
    ensures ClosedBlockAt(b, i) ==>
      FindCloser(a + b, |a| + i + 2).value == |a| + FindCloser(b, i + 2).value
  {
    var s := a + b;
    assert s[|a| + i] == b[i];
    if i + 1 < |b| {
      assert s[|a| + i + 1] == b[i + 1];
    }
    assert BlockOpenerAt(s, |a| + i) == BlockOpenerAt(b, i);
    if BlockOpenerAt(b, i) {
      FindCloserShift(a, b, i + 2);
    }
  }

  lemma BlockPassShiftStep(a: string, b: string, i: nat)
    requires i < |b|
    ensures BlockPassFrom(a + b, |a| + i) ==
      if ClosedBlockAt(b, i) then BlockPassFrom(a + b, |a| + (FindCloser(b, i + 2).value + 2))
      else [b[i]] + BlockPassFrom(a + b, |a| + (i + 1))
  {
    var s := a + b;
    assert s[|a| + i] == b[i];
    ClosedBlockAtShift(a, b, i);
  }

  // The block scan looks only forward: scanning inside b gives the same
  // output whatever text precedes it.
  lemma {:induction false} BlockPassFromShift(a: string, b: string, i: nat)
    requires i <= |b|
    ensures BlockPassFrom(a + b, |a| + i) == BlockPassFrom(b, i)
    decreases |b| - i, 1
  {
    if i < |b| {
      BlockPassShiftStep(a, b, i);
      if ClosedBlockAt(b, i) {
        BlockPassShiftClosed(a, b, i);
      } else {
        BlockPassShiftOpen(a, b, i);
      }
    } else {
      assert |a + b| == |a| + i;
    }
  }

  lemma {:induction false} BlockPassShiftClosed(a: string, b: string, i: nat)
    requires i < |b| && ClosedBlockAt(b, i)
    ensures BlockPassFrom(a + b, |a| + (FindCloser(b, i + 2).value + 2)) == BlockPassFrom(b, i)
    decreases |b| - i, 0
  {
    var c := FindCloser(b, i + 2).value;
    assert i + 2 <= c && c + 2 <= |b| by {
      assert BlockCloserAt(b, c);
    }
    assert BlockPassFrom(b, i) == BlockPassFrom(b, c + 2);
    BlockPassFromShift(a, b, c + 2);
  }

  lemma {:induction false} BlockPassShiftOpen(a: string, b: string, i: nat)
    requires i < |b| && !ClosedBlockAt(b, i)
    ensures [b[i]] + BlockPassFrom(a + b, |a| + (i + 1)) == BlockPassFrom(b, i)
    decreases |b| - i, 0
  {
    assert BlockPassFrom(b, i) == [b[i]] + BlockPassFrom(b, i + 1);
    BlockPassFromShift(a, b, i + 1);
  }

  // A block comment whose body holds no "*/", after text holding no "/*", is
  // deleted whole, newlines included; the text before it is kept and the
  // text after it is scanned afresh.
  lemma BlockPassCutsComment(code: string, body: string, rest: string)
    requires forall k :: 0 <= k < |code| ==> !BlockOpenerAt(code, k)
    requires forall k :: 0 <= k < |body| ==> !BlockCloserAt(body, k)
    ensures BlockPass(code + "/*" + body + "*/" + rest) == code + BlockPass(rest)
  {
    var comment := code + "/*" + body + "*/";
    var s := comment + rest;
    var m := |code|;
    var c := m + 2 + |body|;
    forall k | 0 <= k < m
      ensures !BlockOpenerAt(s, k)
    {
      assert !BlockOpenerAt(code, k);
      assert s[k] == code[k];
      if k + 1 < m {
        assert s[k + 1] == code[k + 1];
      } else {
        assert s[k + 1] == '/';
      }
    }
    assert s[m] == '/' && s[m + 1] == '*';
    assert s[c] == '*' && s[c + 1] == '/';
    forall k | m + 2 <= k < c
      ensures !BlockCloserAt(s, k)
    {
      assert s[k] == body[k - m - 2];
      if k + 1 < c {
        assert !BlockCloserAt(body, k - m - 2);
        assert s[k + 1] == body[k - m - 1];
      } else {
        assert s[k + 1] == '*';
      }
    }
    BlockPassCutsBlock(s, 0, m, c);
    assert s[0..m] == code;
    BlockPassFromShift(comment, rest, 0);
  }
}

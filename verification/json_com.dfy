/** The JSONCom utility: decode a JSON text that may carry '#', ';', "//"
    line comments and slash-star block comments, by stripping them and
    handing the rest to PHP's JSON decoder. */
module JSONCom {
  import opened Wrappers
  import opened Subsequences
  import opened Php
  import opened LinePattern
  import opened BlockPattern

  /** The defaults of decode's optional parameters. */
  const DefaultAssoc := false
  const DefaultDepth := 512
  const DefaultOptions := 0

  /** The exception decode raises for an argument that is not a string. */
  datatype Error = InvalidArgument(message: string)

  const MessagePrefix := "Parameter $str must be a string. \""
  const MessageSuffix := "\" given."

  /** `needle` occurs somewhere in `hay`. */
  predicate Contains(hay: string, needle: string)
  {
    exists k :: 0 <= k <= |hay| && needle <= hay[k..]
  }

  /** No '#', no ';', no "//" and no "/" followed by "*": nothing either pattern could match. */
  predicate CommentFree(s: string)
  {
    LineMarkerFree(s) && forall k :: 0 <= k < |s| ==> !BlockOpenerAt(s, k)
  }

  /** Both substitutions, the line pattern first and the block pattern on its
      result. Only characters are deleted, and no comment marker survives. */
  function StripComments(s: string): (r: string)
    ensures IsSubsequence(r, s)
    ensures LineMarkerFree(r) && NoClosedBlock(r)
  {
    var l := LinePass(s);
    SubsequenceTransitive(BlockPass(l), l, s);
    BlockPass(l)
  }

  /** removeComments: "" for a non-string and for a PHP-empty string ("" or
      "0"); otherwise the string with its comments stripped. */
  function RemoveComments(v: PhpValue): (r: string)
    ensures v.Str? ==> IsSubsequence(r, v.s) && |r| <= |v.s|
    ensures LineMarkerFree(r)
  {
    if !v.Str? || IsEmpty(v.s) then
      SubsequenceEmpty(if v.Str? then v.s else "");
      ""
    else
      SubsequenceLength(StripComments(v.s), v.s);
      StripComments(v.s)
  }

  /** decode: reject a non-string argument with a message naming its type;
      otherwise strip the comments and return what the JSON decoder makes of
      the result, with assoc, depth and options passed through. */
  function Decode<J>(jsonDecode: (string, bool, int, int) -> J, v: PhpValue,
                     assoc: bool, depth: int, options: int): (r: Result<J, Error>)
    ensures r.Ok? <==> v.Str?
    ensures r.Err? ==> Contains(r.error.message, GetType(v))
  {
    if !v.Str? then
      var message := MessagePrefix + GetType(v) + MessageSuffix;
      assert GetType(v) <= message[|MessagePrefix|..];
      Err(InvalidArgument(message))
    else
      Ok(jsonDecode(RemoveComments(v), assoc, depth, options))
  }

  // ---------------------------------------------------------------------
  // removeComments
  // ---------------------------------------------------------------------

  /** The guard: a non-string, "" and "0" all come back as "". */
  lemma RemoveCommentsGuard(v: PhpValue)
    requires !v.Str? || v.s == "" || v.s == "0"
    ensures RemoveComments(v) == ""
  {
  }

  /** A string without any comment marker comes back unchanged, unless it is
      "0", which PHP's empty() swallows. */
  lemma RemoveCommentsUnchanged(s: string)
    requires CommentFree(s)
    ensures RemoveComments(Str(s)) == (if s == "0" then "" else s)
  {
    LinePassUnchanged(s);
    BlockPassNoOpener(s);
  }

  /** Stripping twice is the same as stripping once. */
  lemma StripCommentsIdempotent(s: string)
    ensures StripComments(StripComments(s)) == StripComments(s)
  {
    var r := StripComments(s);
    LinePassUnchanged(r);
    BlockPassUnchanged(r);
  }

  /** removeComments is idempotent except when its result is "0": a second
      call turns that "0" into "". */
  lemma RemoveCommentsIdempotentUnlessZero(s: string)
    ensures var r := RemoveComments(Str(s));
      RemoveComments(Str(r)) == r <==> r != "0"
  {
    if !IsEmpty(s) {
      StripCommentsIdempotent(s);
    }
  }

  lemma RemoveCommentsByPasses(s: string, l: string, r: string)
    requires !IsEmpty(s) && LinePass(s) == l && BlockPass(l) == r
    ensures RemoveComments(Str(s)) == r
  {
  }

  /** "0#c" strips to "0", which a second call turns into "". */
  lemma RemoveCommentsNotIdempotent(s: string)
    requires s == "0#c"
    ensures RemoveComments(Str(s)) == "0"
    ensures RemoveComments(Str(RemoveComments(Str(s)))) == ""
  {
    assert LinePass(s) == "0" by {
      LinePassSkipsClean(s, 0, 1);
      assert LinePassFrom(s, 1) == [];
    }
    assert BlockPass("0") == "0" by {
      BlockPassNoOpener("0");
    }
    RemoveCommentsByPasses(s, "0", "0");
  }

  /** The line pattern runs first, so a "//" inside a block comment cuts the
      rest of its line, the closing star-slash included, and the block it
      opened is then unterminated and kept by the block pattern. */
  lemma LineCommentInsideBlockPasses(code: string, comment: string)
    requires code == "/* a " && comment == "// b */ 1"
    ensures LinePass(code + comment) == code
    ensures BlockPass(code) == code
  {
    LinePassCutsComment(code, comment, []);
    assert code + comment + [] == code + comment;
    BlockPassLeavesUnterminated(code, 0, 0);
  }

  /** So removeComments keeps the opening of that block comment. */
  lemma LineCommentInsideBlock(code: string, comment: string)
    requires code == "/* a " && comment == "// b */ 1"
    ensures RemoveComments(Str(code + comment)) == code
  {
    LineCommentInsideBlockPasses(code, comment);
    RemoveCommentsByPasses(code + comment, code, code);
  }

  /** The block pattern alone would remove that comment entirely. */
  lemma BlockPassRemovesWholeBlock(body: string, rest: string)
    requires body == " a // b " && rest == " 1"
    ensures BlockPass("/*" + body + "*/" + rest) == rest
  {
    BlockPassCutsComment([], body, rest);
    assert [] + "/*" + body + "*/" + rest == "/*" + body + "*/" + rest;
    BlockPassNoOpener(rest);
  }

  /** The two substitutions do not commute. */
  lemma PassOrderMatters(code: string, comment: string)
    requires code == "/* a " && comment == "// b */ 1"
    ensures BlockPass(LinePass(code + comment)) != LinePass(BlockPass(code + comment))
  {
    LineCommentInsideBlockPasses(code, comment);
    assert code + comment == "/*" + " a // b " + "*/" + " 1";
    BlockPassRemovesWholeBlock(" a // b ", " 1");
    LinePassUnchanged(" 1");
  }

  /** A line comment after comment-free text is cut up to its newline; the
      newline and the comment-free line after it are kept. */
  lemma RemoveCommentsCutsTrailingComment(code: string, comment: string, next: string)
    requires CommentFree(code) && CommentFree(next)
    requires comment != [] && LineMarkerAt(comment, 0) && '\n' !in comment
    requires !(code != [] && code[|code| - 1] == '/' && comment[0] == '/')
    ensures RemoveComments(Str(code + comment + "\n" + next)) == code + "\n" + next
  {
    var s := code + comment + "\n" + next;
    var kept := code + "\n" + next;
    LinePassCutsComment(code, comment, "\n" + next);
    assert code + comment + ("\n" + next) == s;
    LinePassLeadingNewline(next);
    LinePassUnchanged(next);
    assert code + ("\n" + next) == kept;
    NoOpenerJoin("\n", next);
    NoOpenerJoin(code, "\n" + next);
    BlockPassNoOpener(kept);
    RemoveCommentsByPasses(s, kept, kept);
  }

  /** A comment line before comment-free text and a trailing comment after
      it are both cut; the text is kept together with the newline that ended
      the comment line. */
  lemma RemoveCommentsCutsHeaderAndTrailer(header: string, middle: string, trailer: string)
    requires header != [] && LineMarkerAt(header, 0) && '\n' !in header
    requires CommentFree(middle)
    requires trailer != [] && LineMarkerAt(trailer, 0) && '\n' !in trailer
    requires !(middle != [] && middle[|middle| - 1] == '/' && trailer[0] == '/')
    ensures RemoveComments(Str(header + "\n" + middle + trailer)) == "\n" + middle
  {
    var s := header + "\n" + middle + trailer;
    var kept := "\n" + middle;
    LinePassCutsComment([], header, "\n" + (middle + trailer));
    assert [] + header + ("\n" + (middle + trailer)) == s;
    LinePassLeadingNewline(middle + trailer);
    LinePassCutsComment(middle, trailer, []);
    assert middle + trailer + [] == middle + trailer;
    assert LinePass([]) == [];
    NoOpenerJoin("\n", middle);
    BlockPassNoOpener(kept);
    RemoveCommentsByPasses(s, kept, kept);
  }

  /** A line comment ends at the newline, which is kept with the next line. */
  lemma ExampleTrailingLineComment(code: string, comment: string, next: string)
    requires code == "{\"a\": 1} " && comment == "// trailing" && next == "{\"b\": 2}"
    ensures RemoveComments(Str(code + comment + "\n" + next)) == code + "\n" + next
  {
    RemoveCommentsCutsTrailingComment(code, comment, next);
  }

  /** A block comment spanning two lines is removed with its newline. */
  lemma ExampleMultiLineBlock(code: string, body: string, rest: string)
    requires code == "{\"a\": " && body == " x\ny " && rest == " 1}"
    ensures RemoveComments(Str(code + "/*" + body + "*/" + rest)) == code + rest
  {
    var s := code + "/*" + body + "*/" + rest;
    LinePassUnchanged(s);
    BlockPassCutsComment(code, body, rest);
    BlockPassNoOpener(rest);
    RemoveCommentsByPasses(s, s, code + rest);
  }

  /** A '#' header line and a trailing ';' comment are both cut; only the
      middle line, which starts with the header's newline, is kept. */
  lemma ExampleHeaderAndTrailing(header: string, middle: string, trailer: string)
    requires header == "# header comment"
    requires middle == "{\"x\": true, \"y\": [1,2,3]} "
    requires trailer == "; trailing"
    ensures RemoveComments(Str(header + "\n" + middle + trailer)) == "\n" + middle
  {
    RemoveCommentsCutsHeaderAndTrailer(header, middle, trailer);
  }

  /** Text that is one comment strips to "". */
  lemma ExampleOnlyComment(s: string)
    requires s == "// just a comment"
    ensures RemoveComments(Str(s)) == ""
  {
    LinePassCutsComment([], s, []);
    assert [] + s + [] == s;
    assert LinePass([]) == [];
    assert BlockPass([]) == [];
    RemoveCommentsByPasses(s, [], []);
  }

  // ---------------------------------------------------------------------
  // decode
  // ---------------------------------------------------------------------

  /** A non-string argument raises the invalid-argument error, whose message
      names the type given; the JSON decoder is never consulted. */
  lemma DecodeRejectsNonString<J>(jsonDecode: (string, bool, int, int) -> J, v: PhpValue,
                                  assoc: bool, depth: int, options: int)
    requires !v.Str?
    ensures Decode(jsonDecode, v, assoc, depth, options)
         == Err(InvalidArgument("Parameter $str must be a string. \"" + GetType(v) + "\" given."))
  {
  }

  /** A string argument reaches the JSON decoder as removeComments leaves it:
      a subsequence of the argument with no '#', ';' or "//" and no complete
      block comment; assoc, depth and options are passed through. */
  lemma DecodeHandsStrippedText<J>(jsonDecode: (string, bool, int, int) -> J, s: string,
                                   assoc: bool, depth: int, options: int)
    ensures var t := if IsEmpty(s) then "" else StripComments(s);
      && Decode(jsonDecode, Str(s), assoc, depth, options) == Ok(jsonDecode(t, assoc, depth, options))
      && IsSubsequence(t, s)
      && LineMarkerFree(t)
      && NoClosedBlock(t)
  {
    if IsEmpty(s) {
      SubsequenceEmpty(s);
    }
  }

  /** "0" is PHP-empty: the JSON decoder receives "" rather than "0". */
  lemma DecodeZero<J>(jsonDecode: (string, bool, int, int) -> J,
                      assoc: bool, depth: int, options: int)
    ensures Decode(jsonDecode, Str("0"), assoc, depth, options)
         == Ok(jsonDecode("", assoc, depth, options))
  {
  }

  /** Comment-free text other than "0" reaches the JSON decoder untouched. */
  lemma DecodeCommentFree<J>(jsonDecode: (string, bool, int, int) -> J, s: string,
                             assoc: bool, depth: int, options: int)
    requires CommentFree(s) && s != "0"
    ensures Decode(jsonDecode, Str(s), assoc, depth, options)
         == Ok(jsonDecode(s, assoc, depth, options))
  {
    RemoveCommentsUnchanged(s);
  }

  /** End to end: the header and trailing comments are gone before the JSON
      decoder sees the text, and assoc, depth and options reach it as given. */
  lemma DecodeHeaderAndTrailing<J>(jsonDecode: (string, bool, int, int) -> J,
                                   header: string, middle: string, trailer: string)
    requires header == "# header comment"
    requires middle == "{\"x\": true, \"y\": [1,2,3]} "
    requires trailer == "; trailing"
    ensures Decode(jsonDecode, Str(header + "\n" + middle + trailer), DefaultAssoc, DefaultDepth, DefaultOptions)
         == Ok(jsonDecode("\n" + middle, false, 512, 0))
  {
    ExampleHeaderAndTrailing(header, middle, trailer);
  }
}

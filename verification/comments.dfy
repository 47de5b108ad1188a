/** `extract_existing_comments` and the comment block that
    `copy_stack_file_with_comments` attaches to the top of the document. */
module Comments {
  import opened Text

  // ---------------------------------------------------------------------
  // comment lines
  // ---------------------------------------------------------------------

  /** `line.strip().startswith('#')`. */
  predicate IsCommentLine(line: string)
  {
    "#" <= Strip(line)
  }

  /** The first character of `line` that is not whitespace is `#`. */
  ghost predicate FirstNonSpaceIsHash(line: string)
  {
    exists k :: 0 <= k < |line| && line[k] == '#' && forall j :: 0 <= j < k ==> IsSpace(line[j])
  }

  lemma {:induction false} TrimLeftHash(s: string)
    ensures "#" <= TrimLeft(s) <==> FirstNonSpaceIsHash(s)
    decreases |s|
  {
    if |s| > 0 && IsSpace(s[0]) {
      TrimLeftHash(s[1..]);
      if FirstNonSpaceIsHash(s) {
        var k :| 0 <= k < |s| && s[k] == '#' && forall j :: 0 <= j < k ==> IsSpace(s[j]);
        assert k > 0;
        assert s[1..][k - 1] == '#';
        assert forall j :: 0 <= j < k - 1 ==> IsSpace(s[1..][j]);
      }
      if FirstNonSpaceIsHash(s[1..]) {
        var k :| 0 <= k < |s[1..]| && s[1..][k] == '#' && forall j :: 0 <= j < k ==> IsSpace(s[1..][j]);
        assert s[k + 1] == '#';
        assert forall j :: 0 <= j < k + 1 ==> IsSpace(s[j]);
      }
    } else if |s| > 0 && s[0] != '#' {
      assert !IsSpace(s[0]);
    }
  }

  /** Trimming the right end keeps a prefix, and never removes a leading `#`. */
  lemma {:induction false} TrimRightPrefix(s: string)
    ensures TrimRight(s) <= s
    ensures "#" <= s ==> "#" <= TrimRight(s)
    decreases |s|
  {
    if |s| > 0 && IsSpace(s[|s| - 1]) {
      TrimRightPrefix(s[..|s| - 1]);
      if "#" <= s {
        assert |s| > 1;
        assert "#" <= s[..|s| - 1];
      }
    }
  }

  /** A line is a comment line exactly when its first non-whitespace
      character is `#`. */
  lemma CommentLineIff(line: string)
    ensures IsCommentLine(line) <==> FirstNonSpaceIsHash(line)
  {
    TrimLeftHash(line);
    TrimRightPrefix(TrimLeft(line));
  }

  // ---------------------------------------------------------------------
  // extract_existing_comments
  // ---------------------------------------------------------------------

  /** The loop over the lines that stops at the first non-comment line: the
      longest prefix of `lines` made of comment lines. */
  function LeadingComments(lines: seq<string>): (r: seq<string>)
    ensures r <= lines
    ensures forall i :: 0 <= i < |r| ==> IsCommentLine(r[i])
    ensures |r| < |lines| ==> !IsCommentLine(lines[|r|])
    decreases |lines|
  {
    if |lines| == 0 || !IsCommentLine(lines[0]) then []
    else [lines[0]] + LeadingComments(lines[1..])
  }

  /** `extract_existing_comments(file_content)`. */
  function ExtractExistingComments(content: string): (r: seq<string>)
    ensures r <= SplitLines(content)
    ensures forall i :: 0 <= i < |r| ==> IsCommentLine(r[i]) && NoLineBreak(r[i])
    ensures |r| < |SplitLines(content)| ==> !IsCommentLine(SplitLines(content)[|r|])
  {
    LeadingComments(SplitLines(content))
  }

  /** The longest comment prefix is the only prefix with the three
      properties `LeadingComments` promises. */
  lemma {:induction false} LeadingCommentsUnique(lines: seq<string>, p: seq<string>)
    requires p <= lines
    requires forall i :: 0 <= i < |p| ==> IsCommentLine(p[i])
    requires |p| < |lines| ==> !IsCommentLine(lines[|p|])
    ensures p == LeadingComments(lines)
  {
    var r := LeadingComments(lines);
    assert forall i :: 0 <= i < |r| ==> IsCommentLine(lines[i]);
    assert forall i :: 0 <= i < |p| ==> IsCommentLine(lines[i]);
    assert p == lines[..|p|] && r == lines[..|r|];
  }

  /** Extracting from text that starts with comment lines and then has a
      non-comment line gives back exactly those comment lines. */
  lemma ExtractFromTerminated(comments: seq<string>, rest: seq<string>)
    requires forall i :: 0 <= i < |comments| ==> IsCommentLine(comments[i]) && NoLineBreak(comments[i])
    requires forall i :: 0 <= i < |rest| ==> NoLineBreak(rest[i])
    requires |rest| > 0 ==> !IsCommentLine(rest[0])
    ensures ExtractExistingComments(Terminated(comments + rest)) == comments
  {
    var lines := comments + rest;
    SplitTerminated(lines);
    LeadingCommentsUnique(lines, comments);
  }

  // ---------------------------------------------------------------------
  // the comment block
  // ---------------------------------------------------------------------

  const Header := "# Dynamic Values in this file:"
  const NoneFound := "# None found"

  /** The text `f"# - {value}\n"` appended for each value, in order. */
  function Bullets(values: seq<string>): string
    decreases |values|
  {
    if |values| == 0 then "" else "# - " + values[0] + "\n" + Bullets(values[1..])
  }

  /** `comment_block`: the header, then one bullet per value in ascending
      order, or `# None found` when there are none. */
  function CommentBlock(values: set<string>): string
  {
    Header + "\n" + (if values == {} then NoneFound + "\n" else Bullets(SortSet(values)))
  }

  /** `combined_comments`: the existing comment lines joined with "\n", a
      "\n", then the block. */
  function CombinedComments(existing: seq<string>, values: set<string>): string
  {
    Join("\n", existing) + "\n" + CommentBlock(values)
  }

  /** The lines of the block, one per entry. */
  function BulletLines(values: seq<string>): seq<string>
  {
    seq(|values|, i requires 0 <= i < |values| => "# - " + values[i])
  }

  function BlockLines(values: set<string>): seq<string>
  {
    [Header] + (if values == {} then [NoneFound] else BulletLines(SortSet(values)))
  }

  lemma {:induction false} BulletsTerminated(values: seq<string>)
    ensures Bullets(values) == Terminated(BulletLines(values))
    decreases |values|
  {
    if |values| > 0 {
      BulletsTerminated(values[1..]);
      assert BulletLines(values)[1..] == BulletLines(values[1..]);
    }
  }

  lemma BlockTerminated(values: set<string>)
    ensures CommentBlock(values) == Terminated(BlockLines(values))
  {
    var tail := if values == {} then [NoneFound] else BulletLines(SortSet(values));
    if values != {} {
      BulletsTerminated(SortSet(values));
    }
    TerminatedAppend([Header], tail);
  }

  lemma BlockLinesNoBreak(values: set<string>)
    requires forall x :: x in values ==> NoLineBreak(x)
    ensures forall i :: 0 <= i < |BlockLines(values)| ==> NoLineBreak(BlockLines(values)[i])
  {
    var lines := BlockLines(values);
    var sorted := SortSet(values);
    FixedLinesNoBreak();
    forall i | 0 <= i < |lines|
      ensures NoLineBreak(lines[i])
    {
      if i > 0 && values != {} {
        assert sorted[i - 1] in values;
        NoLineBreakAppend("# - ", sorted[i - 1]);
      }
    }
  }

  lemma FixedLinesNoBreak()
    ensures NoLineBreak(Header) && NoLineBreak(NoneFound) && NoLineBreak("# - ")
  {
    PrintableNoLineBreak(Header);
    PrintableNoLineBreak(NoneFound);
    PrintableNoLineBreak("# - ");
  }

  /** Read back line by line, the block is exactly its lines. */
  lemma CommentBlockLines(values: set<string>)
    requires forall x :: x in values ==> NoLineBreak(x)
    ensures SplitLines(CommentBlock(values)) == BlockLines(values)
  {
    BlockTerminated(values);
    BlockLinesNoBreak(values);
    SplitTerminated(BlockLines(values));
  }

  /** The lines of the block: the header, then `# - v` for every value in
      ascending order, or `# None found` alone. Every one of them is a
      comment line. */
  lemma BlockLinesLaw(values: set<string>)
    ensures var lines := BlockLines(values);
      && |lines| == 1 + (if values == {} then 1 else |values|)
      && lines[0] == Header
      && (values == {} ==> lines[1] == NoneFound)
      && (values != {} ==>
            && StrictlyAscending(SortSet(values))
            && (forall x :: x in values <==> x in SortSet(values))
            && forall i :: 1 <= i < |lines| ==> lines[i] == "# - " + SortSet(values)[i - 1])
  {
    if values != {} {
      BlockLinesBullets(values, SortSet(values));
    }
  }

  lemma BlockLinesBullets(values: set<string>, sorted: seq<string>)
    requires values != {} && sorted == SortSet(values)
    ensures |BlockLines(values)| == 1 + |sorted|
    ensures forall i :: 1 <= i < |BlockLines(values)| ==> BlockLines(values)[i] == "# - " + sorted[i - 1]
  {
    BlockLinesOf(values, sorted);
    HeaderThenBullets(BlockLines(values), sorted);
  }

  lemma HeaderThenBullets(lines: seq<string>, sorted: seq<string>)
    requires lines == [Header] + BulletLines(sorted)
    ensures |lines| == 1 + |sorted|
    ensures forall i :: 1 <= i < |lines| ==> lines[i] == "# - " + sorted[i - 1]
  {
    var bullets := BulletLines(sorted);
    forall i | 1 <= i < |lines|
      ensures lines[i] == "# - " + sorted[i - 1]
    {
      assert lines[i] == bullets[i - 1];
    }
  }

  lemma BlockLinesAreComments(values: set<string>)
    ensures forall i :: 0 <= i < |BlockLines(values)| ==> IsCommentLine(BlockLines(values)[i])
  {
    var lines := BlockLines(values);
    forall i | 0 <= i < |lines|
      ensures |lines[i]| > 0 && lines[i][0] == '#'
    {
      if i > 0 && values != {} {
        BlockLinesBullets(values, SortSet(values));
        assert lines[i] == "# - " + SortSet(values)[i - 1];
      }
    }
    AllStartWithHash(lines);
  }

  /** A line that starts with `#` is a comment line. */
  lemma StartsWithHash(line: string)
    requires |line| > 0 && line[0] == '#'
    ensures IsCommentLine(line)
  {
    CommentLineIff(line);
  }

  lemma AllStartWithHash(lines: seq<string>)
    requires forall i :: 0 <= i < |lines| ==> |lines[i]| > 0 && lines[i][0] == '#'
    ensures forall i :: 0 <= i < |lines| ==> IsCommentLine(lines[i])
  {
    forall i | 0 <= i < |lines|
      ensures IsCommentLine(lines[i])
    {
      StartsWithHash(lines[i]);
    }
  }

  /** The lines the existing comments contribute: a single empty line when
      there are none. */
  function FirstLines(existing: seq<string>): seq<string>
  {
    if existing == [] then [""] else existing
  }

  lemma CombinedTerminated(existing: seq<string>, values: set<string>)
    ensures CombinedComments(existing, values) == Terminated(FirstLines(existing) + BlockLines(values))
  {
    var first := FirstLines(existing);
    if existing == [] {
      assert Join("\n", existing) + "\n" == Terminated(first);
    } else {
      JoinTerminated(existing);
    }
    BlockTerminated(values);
    TerminatedAppend(first, BlockLines(values));
  }

  /** Read back line by line, the combined comment is the existing lines
      (or a single empty line when there are none) followed by the lines of
      the block. */
  lemma CombinedCommentsLines(existing: seq<string>, values: set<string>)
    requires forall i :: 0 <= i < |existing| ==> NoLineBreak(existing[i])
    requires forall x :: x in values ==> NoLineBreak(x)
    ensures SplitLines(CombinedComments(existing, values)) == FirstLines(existing) + BlockLines(values)
  {
    var first := FirstLines(existing);
    CombinedTerminated(existing, values);
    BlockLinesNoBreak(values);
    assert forall i :: 0 <= i < |first| ==> NoLineBreak(first[i]);
    LinesNoBreakAppend(first, BlockLines(values));
    SplitTerminated(first + BlockLines(values));
  }

  /** The worked example: with `${FOO_BAR}` and `secrets` found, the block
      lists exactly those two, `${FOO_BAR}` first. */
  lemma CommentBlockExample()
    ensures BlockLines({"${FOO_BAR}", "secrets"})
         == ["# Dynamic Values in this file:", "# - ${FOO_BAR}", "# - secrets"]
  {
    var values := {"${FOO_BAR}", "secrets"};
    SortExample();
    BulletExample();
    BlockLinesOf(values, ["${FOO_BAR}", "secrets"]);
  }

  lemma BlockLinesOf(values: set<string>, sorted: seq<string>)
    requires values != {} && SortSet(values) == sorted
    ensures BlockLines(values) == [Header] + BulletLines(sorted)
  {
  }

  lemma BulletExample()
    ensures BulletLines(["${FOO_BAR}", "secrets"]) == ["# - ${FOO_BAR}", "# - secrets"]
  {
    var b := BulletLines(["${FOO_BAR}", "secrets"]);
    assert b[0] == "# - " + "${FOO_BAR}" == "# - ${FOO_BAR}";
    assert b[1] == "# - " + "secrets" == "# - secrets";
  }

  lemma SortExample()
    ensures SortSet({"${FOO_BAR}", "secrets"}) == ["${FOO_BAR}", "secrets"]
  {
    var xs := ["${FOO_BAR}", "secrets"];
    assert StrLe(xs[0], xs[1]);
    assert StrictlyAscending(xs);
    assert forall x :: x in xs <==> x in {"${FOO_BAR}", "secrets"};
    SortSetUnique({"${FOO_BAR}", "secrets"}, xs);
  }
}

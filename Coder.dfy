/** The program-extraction and change-detection core of the coding assistant:
    `parse_program`, which pulls the one python code block out of an
    assistant response, and `ProgramManager`, which remembers the program it
    last wrote so that edits made to the file by someone else can be noticed. */
module Coder {
  import opened PyStr
  import opened PyIO

  /** The code fence the assistant is told to put around code. */
  const Fence: string := "```"

  /** The tag a code block must begin with to be taken as the program. */
  const PythonTag: string := "python"

  datatype Option<T> = None | Some(value: T)

  /** What `parse_program` does: return `None`, return a list of blocks, or
      fail its `assert` because it found several python blocks. */
  datatype Parsed =
    | NoProgram
    | Program(blocks: seq<string>)
    | AssertionFailed(found: seq<string>)

  // ---------------------------------------------------------------------
  // parse_program
  // ---------------------------------------------------------------------

  /** `[x for i, x in enumerate(xs) if i % 2 == 1]`: the elements at odd
      indices, in their original order. */
  function OddIndexed<T>(xs: seq<T>): (r: seq<T>)
    ensures |r| == |xs| / 2
    ensures forall k :: 0 <= k < |r| ==> r[k] == xs[2 * k + 1]
  {
    if |xs| < 2 then [] else [xs[1]] + OddIndexed(xs[2..])
  }

  /** The candidate code blocks of a message: the text between fences, which
      includes the text after an unmatched final fence. */
  function CodeBlocks(message: string): (r: seq<string>)
    ensures |r| == |Split(message, Fence)| / 2
    ensures forall k :: 0 <= k < |r| ==> r[k] == Split(message, Fence)[2 * k + 1]
  {
    OddIndexed(Split(message, Fence))
  }

  /** `block.startswith('python')`; `pythonic...` qualifies as well. */
  predicate IsPythonBlock(block: string) {
    StartsWith(block, PythonTag)
  }

  /** `block[6:].strip()` for a block that starts with the tag. */
  function PythonBody(block: string): (r: string)
    requires IsPythonBlock(block)
    ensures Trimmed(r)
    ensures exists i: nat, j: nat :: WindowOf(block[6..], i, j, r)
  {
    Strip(block[6..])
  }

  /** `[block[6:].strip() for block in blocks if block.startswith('python')]`. */
  function PythonBlocks(blocks: seq<string>): (r: seq<string>)
    ensures |r| <= |blocks|
    ensures r == [] <==> forall k :: 0 <= k < |blocks| ==> !IsPythonBlock(blocks[k])
  {
    if blocks == [] then []
    else
      var rest := PythonBlocks(blocks[1..]);
      assert forall k :: 1 <= k < |blocks| ==> blocks[k] == blocks[1..][k - 1];
      if IsPythonBlock(blocks[0]) then [PythonBody(blocks[0])] + rest else rest
  }

  /** Every body the comprehension yields is stripped: it neither starts nor
      ends with whitespace. */
  lemma {:induction false} PythonBlocksTrimmed(blocks: seq<string>, k: int)
    requires 0 <= k < |PythonBlocks(blocks)|
    ensures Trimmed(PythonBlocks(blocks)[k])
    decreases |blocks|
  {
    var rest := PythonBlocks(blocks[1..]);
    if IsPythonBlock(blocks[0]) {
      if k > 0 { PythonBlocksTrimmed(blocks[1..], k - 1); }
    } else {
      PythonBlocksTrimmed(blocks[1..], k);
    }
  }

  /** Block `k` is the only one of `blocks` that starts with the tag. */
  predicate OnlyPythonBlockAt(blocks: seq<string>, k: int) {
    0 <= k < |blocks| && IsPythonBlock(blocks[k])
    && forall j :: 0 <= j < |blocks| && j != k ==> !IsPythonBlock(blocks[j])
  }

  /** Blocks `i` and `j` both start with the tag. */
  predicate TwoPythonBlocks(blocks: seq<string>, i: int, j: int) {
    0 <= i < j < |blocks| && IsPythonBlock(blocks[i]) && IsPythonBlock(blocks[j])
  }

  /** With exactly one tagged block, the comprehension yields its body alone. */
  lemma {:induction false} PythonBlocksSingle(blocks: seq<string>, k: int)
    requires OnlyPythonBlockAt(blocks, k)
    ensures PythonBlocks(blocks) == [PythonBody(blocks[k])]
    decreases |blocks|
  {
    var tail := blocks[1..];
    assert forall j :: 1 <= j < |blocks| ==> blocks[j] == tail[j - 1];
    if k == 0 {
      assert forall j :: 0 <= j < |tail| ==> !IsPythonBlock(tail[j]);
    } else {
      assert !IsPythonBlock(blocks[0]);
      assert OnlyPythonBlockAt(tail, k - 1);
      PythonBlocksSingle(tail, k - 1);
    }
  }

  /** With two tagged blocks, the comprehension yields at least two bodies. */
  lemma {:induction false} PythonBlocksMany(blocks: seq<string>, i: int, j: int)
    requires TwoPythonBlocks(blocks, i, j)
    ensures |PythonBlocks(blocks)| >= 2
    decreases |blocks|
  {
    var tail := blocks[1..];
    if i == 0 {
      assert IsPythonBlock(tail[j - 1]);
      assert PythonBlocks(tail) != [];
    } else {
      assert TwoPythonBlocks(tail, i - 1, j - 1);
      PythonBlocksMany(tail, i - 1, j - 1);
    }
  }

  /** The number of python bodies found is one exactly when one block is
      tagged, and two or more exactly when two blocks are. */
  lemma PythonBlocksShape(blocks: seq<string>)
    ensures |PythonBlocks(blocks)| == 1 <==> exists k :: OnlyPythonBlockAt(blocks, k)
    ensures |PythonBlocks(blocks)| >= 2 <==> exists i, j :: TwoPythonBlocks(blocks, i, j)
  {
    var r := PythonBlocks(blocks);
    if r != [] {
      var k :| 0 <= k < |blocks| && IsPythonBlock(blocks[k]);
      if OnlyPythonBlockAt(blocks, k) {
        PythonBlocksSingle(blocks, k);
        forall i, j ensures !TwoPythonBlocks(blocks, i, j) {
          if 0 <= i < |blocks| && i != k { assert !IsPythonBlock(blocks[i]); }
        }
      } else {
        var j :| 0 <= j < |blocks| && j != k && IsPythonBlock(blocks[j]);
        if k < j {
          assert TwoPythonBlocks(blocks, k, j);
          PythonBlocksMany(blocks, k, j);
        } else {
          assert TwoPythonBlocks(blocks, j, k);
          PythonBlocksMany(blocks, j, k);
        }
        forall m ensures !OnlyPythonBlockAt(blocks, m) {
          if m != k { assert IsPythonBlock(blocks[k]); } else { assert IsPythonBlock(blocks[j]); }
        }
      }
    }
  }

  /** `parse_program(message)`. */
  function ParseProgram(message: string): (r: Parsed)
    ensures r.NoProgram? <==>
      forall k :: 0 <= k < |CodeBlocks(message)| ==> !IsPythonBlock(CodeBlocks(message)[k])
    ensures r.AssertionFailed? <==> exists i, j :: TwoPythonBlocks(CodeBlocks(message), i, j)
    ensures r.AssertionFailed? ==> |r.found| >= 2 && r.found == PythonBlocks(CodeBlocks(message))
    ensures r.Program? ==> |r.blocks| == 1 && Trimmed(r.blocks[0])
    ensures r.Program? ==> exists k :: OnlyPythonBlockAt(CodeBlocks(message), k)
                                       && r.blocks == [PythonBody(CodeBlocks(message)[k])]
  {
    var chunks := Split(message, Fence);
    var codeBlocks := OddIndexed(chunks);
    assert codeBlocks == CodeBlocks(message);
    if |codeBlocks| == 0 then NoProgram
    else
      var pythonBlocks := PythonBlocks(codeBlocks);
      PythonBlocksShape(codeBlocks);
      if |pythonBlocks| == 0 then NoProgram
      else if |pythonBlocks| != 1 then AssertionFailed(pythonBlocks)
      else
        var k :| OnlyPythonBlockAt(codeBlocks, k);
        PythonBlocksSingle(codeBlocks, k);
        Program(pythonBlocks)
  }

  // ---------------------------------------------------------------------
  // Where the fences are
  // ---------------------------------------------------------------------

  /** `s` does not end with a back-tick, so a fence right after it cannot
      start inside it. */
  predicate NoTrailingBacktick(s: string) {
    s == [] || s[|s| - 1] != '`'
  }

  /** A window with a character other than a back-tick is not a fence. */
  lemma NotFenceAt(s: string, j: nat, m: nat)
    requires j <= m < j + 3 && m < |s| && s[m] != '`'
    ensures !OccursAt(s, Fence, j)
  {
    if j + 3 <= |s| {
      assert s[j..j + 3][m - j] == s[m];
    }
  }

  /** A string without back-ticks contains no fence. */
  lemma NoBacktickNoFence(s: string)
    requires forall k :: 0 <= k < |s| ==> s[k] != '`'
    ensures Find(s, Fence) == -1
  {
    forall j: nat ensures !OccursAt(s, Fence, j) {
      if j < |s| { NotFenceAt(s, j, j); }
    }
  }

  /** Two fence-free strings glue into a fence-free string when the seam is
      not all back-ticks. */
  lemma FenceFreeConcat(x: string, y: string)
    requires Find(x, Fence) == -1 && Find(y, Fence) == -1
    requires NoTrailingBacktick(x) || (y == [] || y[0] != '`')
    ensures Find(x + y, Fence) == -1
  {
    forall j: nat ensures !OccursAt(x + y, Fence, j) {
      NoFenceAcrossSeam(x, y, j);
    }
  }

  /** No fence of `x + y` starts at `j`. */
  lemma NoFenceAcrossSeam(x: string, y: string, j: nat)
    requires Find(x, Fence) == -1 && Find(y, Fence) == -1
    requires NoTrailingBacktick(x) || (y == [] || y[0] != '`')
    ensures !OccursAt(x + y, Fence, j)
  {
    var s := x + y;
    if j + 3 > |s| {
    } else if j + 3 <= |x| {
      NoFenceInLeft(x, y, j);
    } else if j >= |x| {
      NoFenceInRight(x, y, j);
    } else if NoTrailingBacktick(x) {
      assert s[|x| - 1] == x[|x| - 1];
      NotFenceAt(s, j, |x| - 1);
    } else {
      assert s[|x|] == y[0];
      NotFenceAt(s, j, |x|);
    }
  }

  /** A window lying inside `x` is not a fence of `x + y` when it is not one of `x`. */
  lemma NoFenceInLeft(x: string, y: string, j: nat)
    requires j + 3 <= |x| && !OccursAt(x, Fence, j)
    ensures !OccursAt(x + y, Fence, j)
  {
    assert x == (x + y)[..|x|];
    SliceOfPrefix(x + y, |x|, j, 3);
  }

  /** A window lying inside `y` is not a fence of `x + y` when it is not one of `y`. */
  lemma NoFenceInRight(x: string, y: string, j: nat)
    requires |x| <= j && !OccursAt(y, Fence, j - |x|)
    ensures !OccursAt(x + y, Fence, j)
  {
    if j + 3 <= |x + y| {
      assert y == (x + y)[|x|..];
      SliceOfSuffix(x + y, |x|, j - |x|, 3);
    }
  }

  /** A fence placed right after a fence-free `a` that does not end with a
      back-tick is the first fence of `s`. */
  lemma FirstFenceAfter(s: string, a: string, rest: string)
    requires s == a + Fence + rest
    requires Find(a, Fence) == -1 && NoTrailingBacktick(a)
    ensures forall j: nat :: j < |a| ==> !OccursAt(s, Fence, j)
  {
    forall j: nat | j < |a| ensures !OccursAt(s, Fence, j) {
      NoFenceInsidePrefix(s, a, j);
    }
  }

  /** No fence of `s` starts at index `j` inside its fence-free prefix `a`. */
  lemma NoFenceInsidePrefix(s: string, a: string, j: nat)
    requires |a| <= |s| && s[..|a|] == a && j < |a|
    requires Find(a, Fence) == -1 && NoTrailingBacktick(a)
    ensures !OccursAt(s, Fence, j)
  {
    if j + 3 <= |a| {
      SliceOfPrefix(s, |a|, j, 3);
      assert !OccursAt(a, Fence, j);
    } else {
      assert s[|a| - 1] == a[|a| - 1];
      NotFenceAt(s, j, |a| - 1);
    }
  }

  /** A message without any fence has no code block, so `parse_program`
      returns `None`. */
  lemma NoFenceNoProgram(message: string)
    requires Find(message, Fence) == -1
    ensures CodeBlocks(message) == []
    ensures ParseProgram(message) == NoProgram
  {
    SplitWithoutSeparator(message, Fence);
  }

  /** A fence right after fence-free prose that does not end with a
      back-tick is where the first split happens. */
  lemma SplitAfterProse(s: string, prose: string, rest: string)
    requires s == prose + Fence + rest
    requires Find(prose, Fence) == -1 && NoTrailingBacktick(prose)
    ensures Split(s, Fence) == [prose] + Split(rest, Fence)
  {
    FirstFenceAfter(s, prose, rest);
    SplitAtFirst(s, prose, Fence, rest);
  }

  /** The text after an unmatched final fence is a candidate block. */
  lemma UnmatchedFinalFence(prose: string, block: string)
    requires Find(prose, Fence) == -1 && NoTrailingBacktick(prose)
    requires Find(block, Fence) == -1
    ensures CodeBlocks(prose + Fence + block) == [block]
  {
    SplitAfterProse(prose + Fence + block, prose, block);
    SplitWithoutSeparator(block, Fence);
  }

  /** When the fences are odd in number, the chunk count is even and the text
      after the last fence is the last candidate block. */
  lemma FinalChunkIsCandidate(message: string)
    requires |Split(message, Fence)| % 2 == 0
    ensures |CodeBlocks(message)| > 0
    ensures CodeBlocks(message)[|CodeBlocks(message)| - 1]
         == Split(message, Fence)[|Split(message, Fence)| - 1]
  {
  }

  /** A message holding one fenced block between fence-free prose splits
      into the prose before, the block and the prose after. */
  lemma SplitOneFencedBlock(message: string, prose: string, rest: string, block: string, tail: string)
    requires message == prose + Fence + rest && rest == block + Fence + tail
    requires Find(prose, Fence) == -1 && NoTrailingBacktick(prose)
    requires Find(block, Fence) == -1 && NoTrailingBacktick(block)
    requires Find(tail, Fence) == -1
    ensures Split(message, Fence) == [prose, block, tail]
  {
    SplitAfterProse(rest, block, tail);
    SplitWithoutSeparator(tail, Fence);
    SplitAfterProse(message, prose, rest);
  }

  /** Such a message has the fenced block as its only candidate. */
  lemma OneFencedBlock(message: string, prose: string, rest: string, block: string, tail: string)
    requires message == prose + Fence + rest && rest == block + Fence + tail
    requires Find(prose, Fence) == -1 && NoTrailingBacktick(prose)
    requires Find(block, Fence) == -1 && NoTrailingBacktick(block)
    requires Find(tail, Fence) == -1
    ensures CodeBlocks(message) == [block]
  {
    SplitOneFencedBlock(message, prose, rest, block, tail);
    assert OddIndexed([prose, block, tail]) == [block];
  }

  /** A message whose only candidate is a tagged block yields that block's body. */
  lemma SoleCandidate(message: string, block: string)
    requires CodeBlocks(message) == [block] && IsPythonBlock(block)
    ensures ParseProgram(message) == Program([PythonBody(block)])
  {
    assert OnlyPythonBlockAt([block], 0);
    assert forall i, j :: !TwoPythonBlocks([block], i, j);
  }

  /** For trimmed, fence-free `code`, the block ```` python\n<code>\n ````
      holds no fence, starts with the tag, and its stripped body is `code`
      itself. */
  lemma TaggedBlockOfCode(code: string)
    requires Find(code, Fence) == -1 && Trimmed(code)
    ensures var block := PythonTag + "\n" + code + "\n";
      Find(block, Fence) == -1 && NoTrailingBacktick(block)
      && IsPythonBlock(block) && PythonBody(block) == code
  {
    var head := PythonTag + "\n";
    var block := head + code + "\n";
    TagLine();
    FenceFreeConcat(head, code);
    FenceFreeConcat(head + code, "\n");
    assert block[..6] == PythonTag;
    assert block[6..] == "\n" + code + "\n";
    StripPadded("\n", code, "\n");
  }

  /** The tag line `python\n` and a lone newline hold no fence; the tag line
      ends in a newline, and a newline is whitespace. */
  lemma TagLine()
    ensures Find(PythonTag + "\n", Fence) == -1 && NoTrailingBacktick(PythonTag + "\n")
    ensures Find("\n", Fence) == -1 && AllSpace("\n")
  {
    NoBacktickNoFence(PythonTag + "\n");
    NoBacktickNoFence("\n");
  }

  /** Regrouping the parts of a message around its fences. It only
      re-associates `+`; it is there so that the solver does not have to
      find this regrouping of the left-nested concatenation by itself. */
  lemma Regroup(prose: string, fence: string, tag: string, nl: string, code: string, tail: string)
    ensures prose + fence + tag + nl + code + nl + fence + tail
         == prose + fence + ((tag + nl + code + nl) + fence + tail)
  {
  }

  /** A program fenced the way the docstring of `parse_program` describes,
      ```` ```python\n<code>\n``` ````, between fence-free prose that does
      not end in a back-tick and a fence-free tail, is extracted exactly. */
  lemma ExtractEmbeddedProgram(message: string, prose: string, code: string, tail: string)
    requires message == prose + Fence + PythonTag + "\n" + code + "\n" + Fence + tail
    requires Find(prose, Fence) == -1 && NoTrailingBacktick(prose)
    requires Find(code, Fence) == -1 && Trimmed(code)
    requires Find(tail, Fence) == -1
    ensures ParseProgram(message) == Program([code])
  {
    var block := PythonTag + "\n" + code + "\n";
    var rest := block + Fence + tail;
    Regroup(prose, Fence, PythonTag, "\n", code, tail);
    TaggedBlockOfCode(code);
    OneFencedBlock(message, prose, rest, block, tail);
    SoleCandidate(message, block);
  }

  /** A block fenced without the `python` tag is not taken as a program,
      although the prompt at coder.py:88 asks only for triple back-ticks. */
  lemma UntaggedBlockIgnored()
    ensures ParseProgram(Fence + "\nx\n" + Fence) == NoProgram
  {
    var message := Fence + "\nx\n" + Fence;
    var rest := "\nx\n" + Fence + "";
    NoBacktickNoFence("");
    NoBacktickNoFence("\nx\n");
    assert message == "" + Fence + rest;
    OneFencedBlock(message, "", rest, "\nx\n", "");
    assert !IsPythonBlock("\nx\n");
  }

  /** A back-tick right before the opening fence shifts the fence one place
      to the left: the candidate then starts with a back-tick, not with the
      tag, and no program is found. */
  lemma BacktickBeforeFence()
    ensures ParseProgram("`" + Fence + "python\nx\n" + Fence) == NoProgram
  {
    var message := "`" + Fence + "python\nx\n" + Fence;
    var block := "`" + "python\nx\n";
    var rest := block + Fence + "";
    NoBacktickNoFence("");
    NoBacktickNoFence("python\nx\n");
    FenceFreeConcat("`", "python\nx\n");
    assert message == "" + Fence + rest;
    OneFencedBlock(message, "", rest, block, "");
    assert block[0] == '`';
    assert !IsPythonBlock(block);
  }

  /** Any block that starts with `python` counts, `pythonic` included. */
  lemma PythonicBlockCounts()
    ensures ParseProgram(Fence + "pythonic" + Fence) == Program(["ic"])
  {
    PythonicFenced();
    PythonicBody();
    SoleCandidate(Fence + "pythonic" + Fence, "pythonic");
  }

  /** `pythonic` starts with the tag, and its body is `ic`. */
  lemma PythonicBody()
    ensures IsPythonBlock("pythonic") && PythonBody("pythonic") == "ic"
  {
    assert "pythonic"[..6] == PythonTag;
    assert "pythonic"[6..] == "ic";
    StripTrimmed("ic");
  }

  /** The one fenced block of ```` ```pythonic``` ```` is `pythonic`. */
  lemma PythonicFenced()
    ensures CodeBlocks(Fence + "pythonic" + Fence) == ["pythonic"]
  {
    var message := Fence + "pythonic" + Fence;
    var rest := "pythonic" + Fence + "";
    NoBacktickNoFence("");
    NoBacktickNoFence("pythonic");
    assert message == "" + Fence + rest;
    OneFencedBlock(message, "", rest, "pythonic", "");
  }

  // ---------------------------------------------------------------------
  // ProgramManager
  // ---------------------------------------------------------------------

  /** `ProgramManager`: the watched file and the program last written to it.
      The field `fileContent` holds the characters stored in the file;
      `get_program` reads them in text mode, so what it sees is
      `ReadBack(fileContent)`. `ExternalEdit` stands for a change someone
      else makes to the file. */
  class ProgramManager {
    const filename: string
    var fileContent: string
    var currentProgram: string

    /** What `is_program_changed` reports: the text read from the file is
        not the program last written. */
    predicate Changed()
      reads this
    {
      currentProgram != ReadBack(fileContent)
    }

    /** `__init__`: opening the file for appending keeps an existing file
        (`existing == Some(content)`) and creates a missing one empty; the
        snapshot starts blank. */
    constructor (filename: string, existing: Option<string>)
      ensures this.filename == filename
      ensures fileContent == (if existing.Some? then existing.value else "")
      ensures currentProgram == ""
      ensures Changed() <==> fileContent != ""
    {
      this.filename := filename;
      fileContent := if existing.Some? then existing.value else "";
      currentProgram := "";
    }

    /** `get_program`: the file's content as a text-mode read returns it. */
    method GetProgram() returns (program: string)
      ensures program == ReadBack(fileContent)
    {
      program := ReadBack(fileContent);
    }

    /** `update_program`: overwrite the file and take the program as the
        snapshot. The file reads as unchanged afterwards exactly when the
        program holds no carriage return. */
    method UpdateProgram(newProgram: string)
      modifies this`fileContent, this`currentProgram
      ensures fileContent == newProgram && currentProgram == newProgram
      ensures Changed() <==> '\r' in newProgram
    {
      fileContent := newProgram;
      currentProgram := newProgram;
      ReadBackIdentity(newProgram);
    }

    /** `is_program_changed`: whether the file's text differs from the snapshot. */
    method IsProgramChanged() returns (changed: bool)
      ensures changed <==> Changed()
    {
      var program := GetProgram();
      changed := currentProgram != program;
    }

    /** Someone else rewrites the file; the snapshot stays as it was. */
    method ExternalEdit(content: string)
      modifies this`fileContent
      ensures fileContent == content && currentProgram == old(currentProgram)
    {
      fileContent := content;
    }
  }

  /** One session of change detection: a new manager over a file, an update
      by the assistant, then an edit by the user. The file reads as changed
      at first exactly when it was not empty, right after the update exactly
      when the program holds a carriage return, and after the edit exactly
      when the edited file no longer reads back as the program. */
  method DetectOutOfBandEdit(filename: string, existing: Option<string>, program: string, edit: string)
    returns (atStart: bool, afterUpdate: bool, afterEdit: bool)
    ensures atStart <==> existing.Some? && existing.value != ""
    ensures afterUpdate <==> '\r' in program
    ensures afterEdit <==> ReadBack(edit) != program
  {
    var manager := new ProgramManager(filename, existing);
    atStart := manager.IsProgramChanged();
    manager.UpdateProgram(program);
    afterUpdate := manager.IsProgramChanged();
    manager.ExternalEdit(edit);
    afterEdit := manager.IsProgramChanged();
  }

  /** An edit that only turns the written program's line endings into
      `"\r\n"` goes unnoticed, while an edit that changes its text is seen. */
  lemma LineEndingEditUnnoticed(program: string, edit: string)
    requires '\r' !in program && '\r' !in edit
    ensures ReadBack(ToCrlf(program)) == program
    ensures ReadBack(edit) != program <==> edit != program
  {
    ReadBackCrlf(program);
    ReadBackIdentity(edit);
  }
}

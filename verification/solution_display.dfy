/** `formatSolution` of components/SolutionDisplay.tsx: the solution text is
    split on the two-character delimiter `**` and every odd-numbered segment
    is emphasised, the others are shown as they are. */
module SolutionDisplay {
  import opened Strings

  /** The emphasis delimiter. */
  const Bold: string := "**"

  /** One rendered piece of the solution. */
  datatype Segment = Plain(text: string) | Strong(text: string)

  /** The texts of the segments, in order. */
  function Texts(segments: seq<Segment>): (texts: seq<string>)
    ensures |texts| == |segments|
    ensures forall i :: 0 <= i < |segments| ==> texts[i] == segments[i].text
  {
    seq(|segments|, i requires 0 <= i < |segments| => segments[i].text)
  }

  /** `formatSolution`: the pieces between delimiters, alternately plain and
      emphasised, starting plain. */
  function FormatSolution(solution: string): (segments: seq<Segment>)
    ensures |segments| >= 1
    ensures forall i :: 0 <= i < |segments| ==> (segments[i].Strong? <==> i % 2 == 1)
    ensures Texts(segments) == Split(solution, Bold)
  {
    var parts := Split(solution, Bold);
    seq(|parts|, i requires 0 <= i < |parts| => if i % 2 == 1 then Strong(parts[i]) else Plain(parts[i]))
  }

  /** There is one segment more than there are non-overlapping `**`. */
  lemma SegmentCount(solution: string)
    ensures |FormatSolution(solution)| == Count(solution, "**") + 1
  {
    SplitLength(solution, Bold);
  }

  /** Reading the segments one after another gives the solution with every
      `**` removed. */
  lemma SegmentsSpellSolution(solution: string)
    ensures Join(Texts(FormatSolution(solution)), "") == RemoveAll(solution, "**")
  {
    ConcatSplit(solution, Bold);
  }

  /** Putting `**` back between the segments restores the solution. */
  lemma SegmentsRejoin(solution: string)
    ensures Join(Texts(FormatSolution(solution)), "**") == solution
  {
    JoinSplit(solution, Bold);
  }

  /** No segment contains `**`, and no segment but the last ends in `*`: each
      cut is made at the leftmost remaining delimiter. */
  lemma SegmentsHaveNoDelimiter(solution: string)
    ensures forall i :: 0 <= i < |FormatSolution(solution)| ==> Free(FormatSolution(solution)[i].text, "**")
    ensures forall i :: 0 <= i < |FormatSolution(solution)| - 1
              ==> NoMatchBefore(FormatSolution(solution)[i].text + "**", "**", |FormatSolution(solution)[i].text|)
  {
    var segments := FormatSolution(solution);
    SplitPartsFree(solution, Bold);
    SplitIsLeftmost(solution, Bold);
    assert forall i :: 0 <= i < |segments| ==> segments[i].text == Split(solution, Bold)[i];
  }

  /** The segments are the only alternating plain/emphasised cut of the
      solution at leftmost delimiters. */
  lemma FormatUnique(solution: string, segments: seq<Segment>)
    requires forall i :: 0 <= i < |segments| ==> (segments[i].Strong? <==> i % 2 == 1)
    requires LeftmostDecomposition(Texts(segments), solution, "**")
    ensures segments == FormatSolution(solution)
  {
    LeftmostIsSplit(Texts(segments), solution, Bold);
    var f := FormatSolution(solution);
    assert |f| == |segments|;
    forall i | 0 <= i < |f|
      ensures f[i] == segments[i]
    {
      assert f[i].text == Texts(segments)[i];
    }
  }

  /** Text without `**` is one plain segment, the text itself. */
  lemma NoDelimiterIsPlain(solution: string)
    requires Free(solution, "**")
    ensures FormatSolution(solution) == [Plain(solution)]
  {
    SplitFree(solution, Bold);
  }

  /** Unbalanced delimiters are not repaired: with an odd number of `**` the
      trailing segment is still emphasised. */
  lemma UnbalancedTailIsStrong(solution: string)
    requires Count(solution, "**") % 2 == 1
    ensures var segments := FormatSolution(solution);
            segments[|segments| - 1].Strong?
  {
    SegmentCount(solution);
  }

  /** "a**b": plain "a", then emphasised "b". */
  lemma UnbalancedExample()
    ensures FormatSolution("a**b") == [Plain("a"), Strong("b")]
  {
    assert ("a" + Bold)[0..2][0] == 'a';
    assert NoMatchBefore("a" + Bold, Bold, 1);
    SplitAround("a", Bold, "b");
    SplitFree("b", Bold);
    assert "a" + Bold + "b" == "a**b";
    assert Split("a**b", Bold) == ["a", "b"];
    var f := FormatSolution("a**b");
    assert |f| == 2;
    assert f[0] == Plain("a") && f[1] == Strong("b");
  }

  /** "4**" splits into "4" and the empty string. */
  lemma SplitFourBold()
    ensures Split("4**", Bold) == ["4", ""]
  {
    assert ("4" + Bold)[0..2][0] == '4';
    assert NoMatchBefore("4" + Bold, Bold, 1);
    SplitAround("4", Bold, "");
    SplitFree("", Bold);
    assert "4" + Bold + "" == "4**";
  }

  /** "**4**": an empty plain segment, the emphasised "4", and an empty plain
      segment. */
  lemma BoldAnswerExample()
    ensures FormatSolution("**4**") == [Plain(""), Strong("4"), Plain("")]
  {
    assert NoMatchBefore("" + Bold, Bold, 0);
    SplitAround("", Bold, "4**");
    assert "" + Bold + "4**" == "**4**";
    SplitFourBold();
    assert Split("**4**", Bold) == ["", "4", ""];
    var f := FormatSolution("**4**");
    assert |f| == 3;
    assert f[0] == Plain("") && f[1] == Strong("4") && f[2] == Plain("");
  }
}

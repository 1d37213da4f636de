/**
 * The scan in extractFrontmatter that collects the frontmatter lines of a
 * document: the lines strictly between the first line that is exactly
 * "---" and the second one (or the end of the file when there is no
 * second one).
 */
module FrontmatterScan {

  const Delimiter: string := "---"

  /** lines[i] is the first delimiter line. */
  ghost predicate IsFirstDelimiter(lines: seq<string>, i: int)
  {
    0 <= i < |lines| && lines[i] == Delimiter && Delimiter !in lines[..i]
  }

  /** lines[j] is the first delimiter line after line i. */
  ghost predicate IsNextDelimiter(lines: seq<string>, i: int, j: int)
  {
    0 <= i < j < |lines| && lines[j] == Delimiter && Delimiter !in lines[i + 1..j]
  }

  method ExtractFrontmatterLines(lines: seq<string>) returns (frontmatterLines: seq<string>)
    ensures Delimiter !in lines ==> frontmatterLines == []
    ensures forall i, j :: IsFirstDelimiter(lines, i) && IsNextDelimiter(lines, i, j) ==>
              frontmatterLines == lines[i + 1..j]
    ensures forall i :: IsFirstDelimiter(lines, i) && Delimiter !in lines[i + 1..] ==>
              frontmatterLines == lines[i + 1..]
  {
    frontmatterLines := [];
    var inFrontmatter := false;
    var delimiterCount := 0;
    ghost var first := 0;
    var k := 0;
    while k < |lines|
      invariant 0 <= k <= |lines|
      invariant delimiterCount == 0 || delimiterCount == 1
      invariant inFrontmatter <==> delimiterCount == 1
      invariant delimiterCount == 0 ==> Delimiter !in lines[..k] && frontmatterLines == []
      invariant delimiterCount == 1 ==>
                  IsFirstDelimiter(lines, first) && first < k
                  && Delimiter !in lines[first + 1..k] && frontmatterLines == lines[first + 1..k]
    {
      var line := lines[k];
      if line == Delimiter {
        delimiterCount := delimiterCount + 1;
        if delimiterCount == 1 {
          inFrontmatter := true;
          first := k;
          k := k + 1;
          continue;
        } else if delimiterCount == 2 {
          break;
        }
      }
      if inFrontmatter {
        frontmatterLines := frontmatterLines + [line];
      }
      assert lines[..k + 1] == lines[..k] + [line];
      assert delimiterCount == 1 ==> lines[first + 1..k + 1] == lines[first + 1..k] + [line];
      k := k + 1;
    }
  }
}

/** The result view's one decision about the data: the deadline panel is
    emphasised unless the deadline reads "none" in any letter case. */
module Render {
  import Analysis

  /** Lower-cases the ASCII capitals and leaves every other character alone. */
  function LowerAscii(c: char): char {
    if 'A' <= c <= 'Z' then (c as int + 32) as char else c
  }

  /** `String.prototype.toLowerCase`, restricted to ASCII capitals. */
  function ToLower(s: string): string {
    seq(|s|, i requires 0 <= i < |s| => LowerAscii(s[i]))
  }

  /** `deadline.toLowerCase() !== 'none'`. */
  predicate Emphasised(deadline: string)
    ensures |deadline| != 4 ==> Emphasised(deadline)
  {
    ToLower(deadline) != "none"
  }

  /** The test is a four-letter, case-blind comparison with "none". */
  lemma EmphasisedIffNotNone(deadline: string)
    ensures !Emphasised(deadline) <==>
      && |deadline| == 4
      && (deadline[0] == 'n' || deadline[0] == 'N')
      && (deadline[1] == 'o' || deadline[1] == 'O')
      && (deadline[2] == 'n' || deadline[2] == 'N')
      && (deadline[3] == 'e' || deadline[3] == 'E')
  {
    if |deadline| == 4 {
      var l := ToLower(deadline);
      if !Emphasised(deadline) {
        assert l[0] == 'n' && l[1] == 'o' && l[2] == 'n' && l[3] == 'e';
      }
    }
  }

  /** The fallback record's deadline is never emphasised; a dated deadline
      is. */
  lemma FallbackDeadlineNotEmphasised()
    ensures !Emphasised(Analysis.NoDeadline)
    ensures Emphasised("Tuesday, January 15th, 2025")
  {
    EmphasisedIffNotNone(Analysis.NoDeadline);
    EmphasisedIffNotNone("Tuesday, January 15th, 2025");
  }
}

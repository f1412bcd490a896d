/**
 * The question text shown for a feature: the survey question with the
 * feature's code in full-width brackets, or the bare code for a feature
 * without a question text.
 */
module Labels {

  const OpenBracket := "（"
  const CloseBracket := "）"

  /** The feature has a non-empty question text. */
  predicate HasText(col: string, texts: map<string, string>)
  {
    col in texts && texts[col] != ""
  }

  /**
   * `label_for`: a labelled feature shows its question text followed by its
   * code in brackets, so both can be read back off the label; any other
   * feature shows its code alone.
   */
  function LabelFor(col: string, texts: map<string, string>): (r: string)
    ensures !HasText(col, texts) <==> r == col
    ensures HasText(col, texts) ==>
      var t := texts[col];
      && |r| == |t| + |col| + 2
      && r[..|t|] == t
      && r[|t|] == OpenBracket[0]
      && r[|t| + 1..|r| - 1] == col
      && r[|r| - 1] == CloseBracket[0]
  {
    if HasText(col, texts) then
      var t := texts[col];
      var r := t + OpenBracket + col + CloseBracket;
      assert r[..|t|] == t;
      assert r[|t| + 1..|r| - 1] == col;
      r
    else col
  }

  /**
   * Codes without an opening bracket never share a label, whatever the
   * question texts (which may hold brackets of their own): the code is what
   * follows the label's last opening bracket.
   */
  lemma LabelsDistinguishCodes(c1: string, c2: string, texts: map<string, string>)
    requires c1 != c2
    requires OpenBracket[0] !in c1 && OpenBracket[0] !in c2
    ensures LabelFor(c1, texts) != LabelFor(c2, texts)
  {
    var r1, r2 := LabelFor(c1, texts), LabelFor(c2, texts);
    if HasText(c1, texts) && HasText(c2, texts) && r1 == r2 {
      SuffixAfterLast(texts[c1], c1, texts[c2], c2);
    } else if HasText(c1, texts) {
      assert r1[|texts[c1]|] == OpenBracket[0];
      assert OpenBracket[0] in r1;
    } else if HasText(c2, texts) {
      assert r2[|texts[c2]|] == OpenBracket[0];
      assert OpenBracket[0] in r2;
    }
  }

  /** Text and code of a label: the code never holds the opening bracket, so it is the label's last part. */
  lemma SuffixAfterLast(t1: string, c1: string, t2: string, c2: string)
    requires OpenBracket[0] !in c1 && OpenBracket[0] !in c2
    requires t1 + OpenBracket + c1 + CloseBracket == t2 + OpenBracket + c2 + CloseBracket
    ensures c1 == c2
  {
    var r := t1 + OpenBracket + c1 + CloseBracket;
    assert r[|t1|] == OpenBracket[0] && r[|t2|] == OpenBracket[0];
    assert forall k :: |t1| < k < |r| ==> r[k] != OpenBracket[0] by {
      forall k | |t1| < k < |r| ensures r[k] != OpenBracket[0] {
        if k < |r| - 1 {
          assert r[k] == c1[k - |t1| - 1];
        }
      }
    }
    assert forall k :: |t2| < k < |r| ==> r[k] != OpenBracket[0] by {
      forall k | |t2| < k < |r| ensures r[k] != OpenBracket[0] {
        if k < |r| - 1 {
          assert r[k] == c2[k - |t2| - 1];
        }
      }
    }
    assert |t1| == |t2|;
    assert c1 == r[|t1| + 1..|r| - 1] == c2;
  }
}

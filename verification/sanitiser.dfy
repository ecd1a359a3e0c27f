/** Cell sanitisation on the raw path (data/clean.py:77-88): an ordered list
    of erasure rules, each replacing what it matches with the empty string. */
module Sanitiser {
  import opened Wrappers
  import opened Seqs
  import opened Text
  import opened Tables

  /** One replacement rule: erase every occurrence of a literal phrase, or
      erase leading and trailing whitespace (`^\s+|\s+$`). */
  datatype Rule = Erase(phrase: string) | TrimWhitespace

  const NoBreakSpace: char := '\U{00A0}'

  /** The replacement list, in order. */
  const Rules: seq<Rule> := [
    Erase("\n"), Erase("\t"), Erase([NoBreakSpace]),
    Erase("健康咨询描述："),
    Erase("病情分析："),
    Erase("指导意见："),
    Erase("处理意见："),
    TrimWhitespace
  ]

  predicate ValidRule(rule: Rule) {
    rule.Erase? ==> |rule.phrase| > 0
  }

  predicate ValidRules(rules: seq<Rule>) {
    forall k :: 0 <= k < |rules| ==> ValidRule(rules[k])
  }

  /** `re.search(pattern, s)` finds something: the phrase occurs, or there
      is whitespace at the start or at the end. */
  predicate Matches(rule: Rule, s: string) {
    match rule
    case Erase(p) => Contains(s, p)
    case TrimWhitespace => !TrimmedEnds(s)
  }

  /** No rule of `rules` finds anything in `s`. */
  predicate NoneMatch(rules: seq<Rule>, s: string) {
    forall k :: 0 <= k < |rules| ==> !Matches(rules[k], s)
  }

  /** One rule applied to one string; it only ever deletes, and a rule that
      finds nothing changes nothing. */
  function ApplyRule(rule: Rule, s: string): (t: string)
    requires ValidRule(rule)
    ensures IsSubseq(t, s)
    ensures rule.TrimWhitespace? ==> TrimmedEnds(t)
    ensures !Matches(rule, s) ==> t == s
  {
    match rule
    case Erase(p) => DeleteAll(s, p)
    case TrimWhitespace =>
      TrimSubseq(s);
      if TrimmedEnds(s) then TrimKeepsTrimmed(s); Trim(s) else Trim(s)
  }

  /** `df.replace({pattern: ''}, regex=True)` on one cell whose value before
      the replacement was `original`, with `s` what the earlier patterns
      left of it. pandas decides which patterns apply to a cell once, on the
      original value, and then substitutes them in order on the current
      value; a pattern that did not occur in the original is skipped even if
      an earlier deletion brought it about. */
  function ApplyRules(rules: seq<Rule>, original: string, s: string): (t: string)
    requires ValidRules(rules)
    ensures IsSubseq(t, s)
    ensures NoneMatch(rules, original) ==> t == s
    decreases |rules|
  {
    if |rules| == 0 then
      SubseqRefl(s);
      s
    else
      var u := if Matches(rules[0], original) then ApplyRule(rules[0], s) else s;
      SubseqRefl(s);
      var t := ApplyRules(rules[1..], original, u);
      SubseqTrans(t, u, s);
      assert NoneMatch(rules, original) ==> NoneMatch(rules[1..], original) by {
        forall k | 0 <= k < |rules| - 1 ensures rules[1..][k] == rules[k + 1] { }
      }
      t
  }

  /** A character no longer present is never brought back by later rules. */
  lemma AbsentStaysAbsent(rules: seq<Rule>, original: string, s: string, c: char)
    requires ValidRules(rules) && c !in s
    ensures c !in ApplyRules(rules, original, s)
  {
    SubseqBounds(ApplyRules(rules, original, s), s);
  }

  /** A rule erasing a single character leaves none of it behind, whatever
      rules come after it: if the original has the character the rule
      applies, and if it has not, no part of it has. */
  lemma {:induction false} ErasedCharGone(rules: seq<Rule>, original: string, s: string, k: nat, c: char)
    requires ValidRules(rules) && k < |rules| && rules[k] == Erase([c])
    requires IsSubseq(s, original)
    ensures c !in ApplyRules(rules, original, s)
    decreases k
  {
    var u := if Matches(rules[0], original) then ApplyRule(rules[0], s) else s;
    SubseqRefl(s);
    SubseqTrans(u, s, original);
    if k == 0 {
      ContainsChar(original, c);
      SubseqBounds(s, original);
      AbsentStaysAbsent(rules[1..], original, u, c);
    } else {
      ErasedCharGone(rules[1..], original, u, k - 1, c);
    }
  }

  /** When the last rule trims and the original has whitespace at an end,
      the result has none at either end. */
  lemma {:induction false} LastTrimTrims(rules: seq<Rule>, original: string, s: string)
    requires ValidRules(rules) && |rules| > 0 && rules[|rules| - 1] == TrimWhitespace
    requires !TrimmedEnds(original)
    ensures TrimmedEnds(ApplyRules(rules, original, s))
    decreases |rules|
  {
    var u := if Matches(rules[0], original) then ApplyRule(rules[0], s) else s;
    var t := ApplyRules(rules[1..], original, u);
    assert ApplyRules(rules, original, s) == t;
    if |rules| > 1 {
      assert rules[1..][|rules| - 2] == TrimWhitespace;
      LastTrimTrims(rules[1..], original, u);
    } else {
      assert rules[0] == TrimWhitespace;
      assert TrimmedEnds(u);
      assert t == u;
    }
  }

  /** The whole replacement list on one cell value. The result only
      deletes from the value and holds no newline, tab or no-break space;
      a value with whitespace at an end comes out with none at either end;
      a value in which no pattern occurs comes out unchanged. */
  function SanitiseText(s: string): (r: string)
    ensures IsSubseq(r, s) && |r| <= |s|
    ensures '\n' !in r && '\t' !in r && NoBreakSpace !in r
    ensures !TrimmedEnds(s) ==> TrimmedEnds(r)
    ensures NoneMatch(Rules, s) ==> r == s
  {
    assert ValidRules(Rules);
    var r := ApplyRules(Rules, s, s);
    SubseqRefl(s);
    SubseqBounds(r, s);
    ErasedCharGone(Rules, s, s, 0, '\n');
    ErasedCharGone(Rules, s, s, 1, '\t');
    ErasedCharGone(Rules, s, s, 2, NoBreakSpace);
    assert !TrimmedEnds(s) ==> TrimmedEnds(r) by {
      if !TrimmedEnds(s) {
        LastTrimTrims(Rules, s, s);
      }
    }
    r
  }

  /** A missing cell stays missing (pandas skips NaN); a string is sanitised. */
  function SanitiseCell(c: Cell): (r: Cell)
    ensures r.None? <==> c.None?
  {
    match c
    case None => None
    case Some(s) => Some(SanitiseText(s))
  }

  /** `df.replace({...}, regex=True)` over every cell of the frame. */
  function SanitiseFrame(f: Frame): (r: Frame)
    requires WellFormed(f)
    ensures WellFormed(r) && r.columns == f.columns && |r.rows| == |f.rows|
    ensures forall k :: 0 <= k < |r.rows| ==> r.rows[k].index == f.rows[k].index
    ensures forall k, j :: 0 <= k < |r.rows| && 0 <= j < |f.columns| ==>
      r.rows[k].cells[j] == SanitiseCell(f.rows[k].cells[j])
  {
    Frame(f.columns, seq(|f.rows|, k requires 0 <= k < |f.rows| =>
      Row(f.rows[k].index, seq(|f.rows[k].cells|, j requires 0 <= j < |f.rows[k].cells| =>
        SanitiseCell(f.rows[k].cells[j])))))
  }

  /** When no rule but the `j`-th finds anything in the original, the list
      does what that one rule does. */
  lemma {:induction false} OneRuleApplies(rules: seq<Rule>, original: string, s: string, j: nat)
    requires ValidRules(rules) && j < |rules|
    requires forall k :: 0 <= k < |rules| && k != j ==> !Matches(rules[k], original)
    ensures ApplyRules(rules, original, s) == if Matches(rules[j], original) then ApplyRule(rules[j], s) else s
    decreases j
  {
    var u := if Matches(rules[0], original) then ApplyRule(rules[0], s) else s;
    assert forall k :: 0 <= k < |rules| - 1 ==> rules[1..][k] == rules[k + 1];
    if j > 0 {
      OneRuleApplies(rules[1..], original, s, j - 1);
    }
  }

  /** A value without a newline, a tab, a no-break space, whitespace at
      its ends or the first characters of the other phrases can match no
      rule but the one for "病情分析：". */
  lemma OnlyAnalysisMatches(s: string)
    requires '\n' !in s && '\t' !in s && NoBreakSpace !in s && TrimmedEnds(s)
    requires '健' !in s && '指' !in s && '处' !in s
    ensures forall k :: 0 <= k < |Rules| && k != 4 ==> !Matches(Rules[k], s)
  {
    ContainsChar(s, '\n');
    ContainsChar(s, '\t');
    ContainsChar(s, NoBreakSpace);
    if Contains(s, "健康咨询描述：") { ContainsFirst(s, "健康咨询描述："); }
    if Contains(s, "指导意见：") { ContainsFirst(s, "指导意见："); }
    if Contains(s, "处理意见：") { ContainsFirst(s, "处理意见："); }
  }

  /** An answer that starts with the "病情分析：" label and a space. */
  const LabelledAnswer: string := "病情分析： 你好"

  /** Of the patterns, only the label occurs in `LabelledAnswer`, and
      erasing it leaves the space in front. */
  lemma LabelledAnswerMatches()
    ensures '\n' !in LabelledAnswer && '\t' !in LabelledAnswer && NoBreakSpace !in LabelledAnswer
    ensures '健' !in LabelledAnswer && '指' !in LabelledAnswer && '处' !in LabelledAnswer
    ensures TrimmedEnds(LabelledAnswer)
  {
  }

  lemma LabelledAnswerErased()
    ensures Matches(Rules[4], LabelledAnswer)
    ensures ApplyRule(Rules[4], LabelledAnswer) == " 你好"
  {
    var phrase := "病情分析：";
    var rest := " 你好";
    assert LabelledAnswer == phrase + rest;
    assert StartsWith(LabelledAnswer, phrase);
    assert LabelledAnswer[|phrase|..] == rest;
    assert !Contains(rest, phrase) by {
      if Contains(rest, phrase) { ContainsFirst(rest, phrase); }
    }
  }

  /** The trim applies only to a value that had whitespace at an end: in
      "病情分析： 你好" only the label occurs, and the space its deletion
      uncovers stays. */
  lemma UncoveredSpaceStays()
    ensures SanitiseText(LabelledAnswer) == " 你好"
    ensures !TrimmedEnds(SanitiseText(LabelledAnswer))
  {
    LabelledAnswerMatches();
    LabelledAnswerErased();
    OnlyAnalysisMatches(LabelledAnswer);
    OneRuleApplies(Rules, LabelledAnswer, LabelledAnswer, 4);
  }
}

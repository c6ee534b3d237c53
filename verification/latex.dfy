/** The LaTeX conversation report (`create_latex_content` in test.py). */
module Latex {

  /** A question and the answer the chatbot gave to it. */
  type Turn = (string, string)

  /** The text of the report template before its `%s` placeholder. */
  const Preamble: string :=
    "\n"
    + "\\documentclass[a4paper,12pt]{article}\n"
    + "\\usepackage[utf8]{inputenc}\n"
    + "\\usepackage[T1]{fontenc}\n"
    + "\\usepackage{lmodern}\n"
    + "\\usepackage{geometry}\n"
    + "\\geometry{margin=1in}\n"
    + "\\usepackage{enumitem}\n"
    + "\\usepackage{xcolor}\n"
    + "\\usepackage{parskip}\n"
    + "\n"
    + "\\begin{document}\n"
    + "\n"
    + "\\begin{center}\n"
    + "{\\Large \\textbf{PDF Chatbot Conversation Report}} \\\\\n"
    + "\\vspace{0.5cm}\n"
    + "{\\small Generated on \\today}\n"
    + "\\end{center}\n"
    + "\n"
    + "\\section*{Conversation History}\n"
    + "\\begin{itemize}[leftmargin=*]\n"

  /** The text of the report template after its `%s` placeholder. */
  const Postamble: string :=
    "\n"
    + "\\end{itemize}\n"
    + "\n"
    + "\\end{document}\n"

  function QuestionItem(q: string): string {
    "\\item \\textbf{Question:} " + q + "\n"
  }

  function AnswerItem(a: string): string {
    "\\item \\textbf{Answer:} " + a + "\n"
  }

  /** The list items of the report: for every turn, in order, its question
      item and then its answer item. */
  function ItemLines(conversation: seq<Turn>): (lines: seq<string>)
    ensures |lines| == 2 * |conversation|
  {
    if conversation == [] then []
    else [QuestionItem(conversation[0].0), AnswerItem(conversation[0].1)] + ItemLines(conversation[1..])
  }

  /** Turn `k` gives items `2k` and `2k + 1`, with its texts verbatim. */
  lemma {:induction false} ItemLinesAt(conversation: seq<Turn>, k: nat)
    requires k < |conversation|
    ensures ItemLines(conversation)[2 * k] == QuestionItem(conversation[k].0)
    ensures ItemLines(conversation)[2 * k + 1] == AnswerItem(conversation[k].1)
  {
    if k > 0 {
      ItemLinesAt(conversation[1..], k - 1);
      assert conversation[1..][k - 1] == conversation[k];
    }
  }

  /** Concatenation of a list of strings. */
  function Concat(parts: seq<string>): string {
    if parts == [] then [] else parts[0] + Concat(parts[1..])
  }

  /** The text that replaces `%s` in the template. */
  function Items(conversation: seq<Turn>): string {
    Concat(ItemLines(conversation))
  }

  /** The whole report for a conversation. */
  function Report(conversation: seq<Turn>): string {
    Preamble + Items(conversation) + Postamble
  }

  lemma {:induction false} ConcatAppend(xs: seq<string>, ys: seq<string>)
    ensures Concat(xs + ys) == Concat(xs) + Concat(ys)
    decreases |xs|
  {
    if xs == [] {
      assert xs + ys == ys;
    } else {
      assert (xs + ys)[1..] == xs[1..] + ys;
      ConcatAppend(xs[1..], ys);
    }
  }

  lemma {:induction false} ItemLinesAppend(conversation: seq<Turn>, turn: Turn)
    ensures ItemLines(conversation + [turn]) == ItemLines(conversation) + [QuestionItem(turn.0), AnswerItem(turn.1)]
  {
    var n := |conversation|;
    var c := conversation + [turn];
    var l, r := ItemLines(c), ItemLines(conversation) + [QuestionItem(turn.0), AnswerItem(turn.1)];
    forall i | 0 <= i < |l| ensures l[i] == r[i] {
      var k := i / 2;
      ItemLinesAt(c, k);
      if k < n {
        ItemLinesAt(conversation, k);
        assert c[k] == conversation[k];
      }
      assert i == 2 * k || i == 2 * k + 1;
    }
  }

  /** Adding a turn to the conversation adds exactly its two items at the end
      of the list, before the postamble. */
  lemma ItemsAppend(conversation: seq<Turn>, turn: Turn)
    ensures Items(conversation + [turn]) == Items(conversation) + QuestionItem(turn.0) + AnswerItem(turn.1)
  {
    ItemLinesAppend(conversation, turn);
    ConcatAppend(ItemLines(conversation), [QuestionItem(turn.0), AnswerItem(turn.1)]);
    var pair := [QuestionItem(turn.0), AnswerItem(turn.1)];
    assert Concat(pair) == QuestionItem(turn.0) + AnswerItem(turn.1) by {
      assert pair[1..] == [AnswerItem(turn.1)];
      assert [AnswerItem(turn.1)][1..] == [];
      assert Concat([AnswerItem(turn.1)]) == AnswerItem(turn.1) + [];
    }
  }

  /** `create_latex_content(conversation)`: the items are built up by a loop
      and then put in the template's `%s` place. */
  method CreateLatexContent(conversation: seq<Turn>) returns (latex: string)
    ensures latex == Preamble + Concat(ItemLines(conversation)) + Postamble
  {
    var items := "";
    for i := 0 to |conversation|
      invariant items == Items(conversation[..i])
    {
      var (q, a) := conversation[i];
      ItemsAppend(conversation[..i], conversation[i]);
      assert conversation[..i + 1] == conversation[..i] + [conversation[i]];
      items := items + "\\item \\textbf{Question:} " + q + "\n";
      items := items + "\\item \\textbf{Answer:} " + a + "\n";
    }
    assert conversation[..|conversation|] == conversation;
    latex := Preamble + items + Postamble;
  }

  /** The items of a one-turn and of a two-turn conversation. */
  lemma ItemsOfShortConversations(q: string, a: string, r: string, b: string)
    ensures Items([(q, a)]) == QuestionItem(q) + AnswerItem(a)
    ensures Items([(q, a), (r, b)]) == QuestionItem(q) + AnswerItem(a) + QuestionItem(r) + AnswerItem(b)
  {
    ItemsAppend([], (q, a));
    ItemsAppend([(q, a)], (r, b));
    assert [] + [(q, a)] == [(q, a)];
    assert [(q, a)] + [(r, b)] == [(q, a), (r, b)];
  }

  /** Values are inserted verbatim, without escaping, so an answer can forge
      list items: whatever `q`, `a`, `r` and `b` are, a one-turn conversation
      whose answer embeds item markup gives the same report as a two-turn one. */
  lemma AnswerCanForgeItems(q: string, a: string, r: string, b: string)
    ensures var forged := a + "\n" + QuestionItem(r) + "\\item \\textbf{Answer:} " + b;
      Report([(q, forged)]) == Report([(q, a), (r, b)])
  {
    var forged := a + "\n" + QuestionItem(r) + "\\item \\textbf{Answer:} " + b;
    ItemsOfShortConversations(q, forged, q, forged);
    ItemsOfShortConversations(q, a, r, b);
    assert AnswerItem(forged) == AnswerItem(a) + QuestionItem(r) + AnswerItem(b);
    assert Items([(q, forged)]) == Items([(q, a), (r, b)]);
  }
}

/**
 The plugin's fix hint (`suggestFix`): the message is lowered, the four
 keywords are tried in a fixed order, the first one the lowered message
 contains picks the hint, and a generic hint covers the rest.
 */
module Suggestions {
  import opened Options
  import opened Text

  /** The five hints, verbatim (they are Vietnamese). */
  const SyntaxHint: string := "Kiểm tra dấu \":\" hoặc dấu ngoặc."
  const NameHint: string := "Biến chưa được khai báo hoặc viết sai tên."
  const IndentHint: string := "Kiểm tra thụt đầu dòng bằng 4 khoảng trắng."
  const TypeHint: string := "Kiểm tra kiểu dữ liệu khi truyền vào hàm."
  const FallbackHint: string := "Kiểm tra lại cú pháp hoặc lỗi chính tả."

  /** One row of the keyword table. */
  datatype Rule = Rule(keyword: string, hint: string)

  /** The keyword table, in the order the keywords are tried. */
  const Rules: seq<Rule> := [
    Rule("syntaxerror", SyntaxHint),
    Rule("nameerror", NameHint),
    Rule("indentation", IndentHint),
    Rule("typeerror", TypeHint)
  ]

  /** Rule `i` is the first whose keyword `text` contains. */
  predicate IsFirstRule(rules: seq<Rule>, text: string, i: int) {
    0 <= i < |rules| && Contains(text, rules[i].keyword)
    && forall j :: 0 <= j < i ==> !Contains(text, rules[j].keyword)
  }

  /** The first rule whose keyword `text` contains, if any: a table lookup
      written independently of the chain of tests in `SuggestFix`. */
  function FirstRule(rules: seq<Rule>, text: string): (r: Option<nat>)
    ensures r.Some? ==> IsFirstRule(rules, text, r.value)
    ensures r.None? ==> forall j :: 0 <= j < |rules| ==> !Contains(text, rules[j].keyword)
    decreases |rules|
  {
    if |rules| == 0 then None
    else if Contains(text, rules[0].keyword) then Some(0)
    else
      match FirstRule(rules[1..], text)
      case None => None
      case Some(i) => Some(i + 1)
  }

  /** The hint the table gives for a message. */
  function TableHint(msg: string): string {
    match FirstRule(Rules, Lower(msg))
    case Some(i) => Rules[i].hint
    case None => FallbackHint
  }

  /** `suggestFix(msg)`. It always returns one of the five hints; rule `i`'s
      hint exactly when rule `i` is the first whose keyword the lowered
      message contains, and the generic hint exactly when none is. */
  function SuggestFix(msg: string): (r: string)
    ensures r in {SyntaxHint, NameHint, IndentHint, TypeHint, FallbackHint}
    ensures forall i :: 0 <= i < |Rules| ==> (r == Rules[i].hint <==> IsFirstRule(Rules, Lower(msg), i))
    ensures r == FallbackHint <==> forall i :: 0 <= i < |Rules| ==> !Contains(Lower(msg), Rules[i].keyword)
  {
    HintsDistinct();
    var lower := Lower(msg);
    assert Rules[0] == Rule("syntaxerror", SyntaxHint) && Rules[1] == Rule("nameerror", NameHint);
    assert Rules[2] == Rule("indentation", IndentHint) && Rules[3] == Rule("typeerror", TypeHint);
    if Contains(lower, "syntaxerror") then SyntaxHint
    else if Contains(lower, "nameerror") then NameHint
    else if Contains(lower, "indentation") then IndentHint
    else if Contains(lower, "typeerror") then TypeHint
    else FallbackHint
  }

  /** The five hints are pairwise different, so the hint tells which rule fired. */
  lemma HintsDistinct()
    ensures SyntaxHint != NameHint && SyntaxHint != IndentHint && SyntaxHint != TypeHint
    ensures NameHint != IndentHint && NameHint != TypeHint && IndentHint != TypeHint
    ensures FallbackHint !in {SyntaxHint, NameHint, IndentHint, TypeHint}
  {
    assert SyntaxHint[0] == 'K' && NameHint[0] == 'B';
    assert SyntaxHint[9] == 'd' && IndentHint[9] == 't' && TypeHint[9] == 'k' && FallbackHint[9] == 'l';
    assert NameHint[0] != FallbackHint[0];
  }

  /** The chain of tests in `suggestFix` is the first-match lookup of the table. */
  lemma SuggestFixIsTableLookup(msg: string)
    ensures SuggestFix(msg) == TableHint(msg)
  {
    HintsDistinct();
    var lower := Lower(msg);
    match FirstRule(Rules, lower)
    case Some(i) =>
      assert SuggestFix(msg) == Rules[i].hint;
    case None =>
  }

  /** The hint depends on the message only through its lowered form. */
  lemma SuggestFixIgnoresCase(msg: string)
    ensures SuggestFix(msg) == SuggestFix(Lower(msg))
  {
    LowerIdempotent(msg);
  }

  /** The running example's message gets the punctuation hint. */
  lemma SyntaxErrorExample()
    ensures SuggestFix("SyntaxError: invalid syntax") == SyntaxHint
  {
    var lower := Lower("SyntaxError: invalid syntax");
    assert lower[..11] == "syntaxerror";
  }
}

/** The prompt preview: the selection joined into one prompt string, and the copy
    button that only acts on a non-empty prompt. Parsing a prompt back into terms
    is the template library's comma splitting. */
module Prompt {
  import Text
  import opened Optional
  import TemplateLibrary

  /** What goes between consecutive terms. */
  const Separator: string := ", "

  /** `selectedTerms.join(", ")`. */
  function Serialize(selection: seq<string>): (prompt: string)
    ensures selection == [] ==> prompt == ""
    ensures |selection| == 1 ==> prompt == selection[0]
    ensures |selection| > 1 ==> prompt == selection[0] + Separator + Serialize(selection[1..])
  {
    Text.Join(selection, Separator)
  }

  /** The prompt holds every term plus two characters between each pair. */
  lemma SerializeLength(selection: seq<string>)
    requires |selection| >= 1
    ensures |Serialize(selection)| == Text.TotalLength(selection) + 2 * (|selection| - 1)
  {
    Text.JoinLength(selection, Separator);
  }

  /** The prompt is empty only for the selections `[]` and `[""]`: two or more
      terms always leave at least one separator. */
  lemma EmptyPromptIff(selection: seq<string>)
    ensures Serialize(selection) == "" <==> selection == [] || selection == [""]
  {
    if |selection| > 1 {
      SerializeLength(selection);
    }
  }

  /** `handleCopy`: the text put on the clipboard, if any. */
  function Copy(selection: seq<string>): (copied: Option<string>)
    ensures copied.None? <==> selection == [] || selection == [""]
    ensures copied.Some? ==> copied.value == Serialize(selection) && copied.value != ""
  {
    EmptyPromptIff(selection);
    var prompt := Serialize(selection);
    if prompt != "" then Some(prompt) else None
  }

  /** A term the round trip preserves: non-empty, without a comma and without
      whitespace at either end. */
  predicate Parseable(term: string)
  {
    term != "" && ',' !in term && Text.Trimmed(term)
  }

  /** The separator is a comma followed by a space. */
  lemma SeparatorIsCommaSpace(head: string, rest: string)
    ensures head + Separator + rest == head + "," + (" " + rest)
  {
  }

  /** A parseable term in front of a separator adds exactly that term. */
  lemma ParseCons(head: string, rest: string, terms: seq<string>)
    requires Parseable(head) && TemplateLibrary.ParseTerms(rest) == terms
    ensures TemplateLibrary.ParseTerms(head + Separator + rest) == [head] + terms
  {
    var x := " " + rest;
    SeparatorIsCommaSpace(head, rest);
    assert TemplateLibrary.ParseTerms(x) == terms by {
      TemplateLibrary.ParseTermsLeadingSpace(rest);
    }
    assert TemplateLibrary.ParseTerms(head) == [head] by {
      TemplateLibrary.ParseSingleTerm(head);
    }
    TemplateLibrary.ParseTermsAppend(head, x);
  }

  /** Splitting the prompt at commas, trimming and dropping empty pieces gives the
      selection back when every term is parseable. */
  lemma {:induction false} ParseSerialize(selection: seq<string>)
    requires forall k :: 0 <= k < |selection| ==> Parseable(selection[k])
    ensures TemplateLibrary.ParseTerms(Serialize(selection)) == selection
    decreases |selection|
  {
    if |selection| == 0 {
      TemplateLibrary.ParseBlankPiece("");
    } else if |selection| == 1 {
      TemplateLibrary.ParseSingleTerm(selection[0]);
    } else {
      var head, tail := selection[0], selection[1..];
      ParseSerialize(tail);
      ParseCons(head, Serialize(tail), tail);
      assert selection == [head] + tail;
    }
  }

  /** Without the condition the round trip fails: a term with a comma in it comes
      back as two terms. */
  lemma CommaTermSplits(a: string, b: string)
    requires Parseable(a) && Parseable(b)
    ensures TemplateLibrary.ParseTerms(Serialize([a + "," + b])) == [a, b]
  {
    TemplateLibrary.ParseTermsAppend(a, b);
    TemplateLibrary.ParseSingleTerm(a);
    TemplateLibrary.ParseSingleTerm(b);
  }
}

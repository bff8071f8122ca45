/** The template library page: a list of named term lists, each with an optional
    image, created from a free-text name and a comma-separated list of terms. The
    id the page draws from `crypto.randomUUID` is passed in as `freshId`. */
module TemplateLibrary {
  import Seqs
  import Text
  import opened Optional

  /** Templates written by this page always carry an image string (possibly
      empty); templates stored by other means may lack one. */
  datatype Template = Template(id: string, name: string, terms: seq<string>, image: Option<string>)

  predicate NonEmpty(s: string)
  {
    s != ""
  }

  /** `input.split(',').map(s => s.trim()).filter(Boolean)`: the comma-separated
      pieces, trimmed, with the empty ones dropped. */
  function ParseTerms(input: string): (terms: seq<string>)
    ensures forall t :: t in terms ==> t != "" && Text.Trimmed(t) && ',' !in t
  {
    var pieces := Text.Split(input, ',');
    var trimmed := Seqs.Map(pieces, Text.Trim);
    assert forall t :: t in trimmed ==> Text.Trimmed(t) && ',' !in t by {
      forall t | t in trimmed
        ensures Text.Trimmed(t) && ',' !in t
      {
        var k :| 0 <= k < |trimmed| && trimmed[k] == t;
        TrimmedIsInfix(pieces[k]);
      }
    }
    Seqs.Filter(trimmed, NonEmpty)
  }

  /** The parsed terms are the trimmed pieces in their order, and only the pieces
      that are empty after trimming are left out. */
  lemma ParseTermsKeepsOrder(input: string)
    ensures Seqs.SubsequenceOf(ParseTerms(input), Seqs.Map(Text.Split(input, ','), Text.Trim))
    ensures forall x :: x != "" ==>
              multiset(ParseTerms(input))[x] == multiset(Seqs.Map(Text.Split(input, ','), Text.Trim))[x]
  {
    var trimmed := Seqs.Map(Text.Split(input, ','), Text.Trim);
    Seqs.FilterIsSubsequence(trimmed, NonEmpty);
    Seqs.FilterCounts(trimmed, NonEmpty);
  }

  /** Trimming never adds a character. */
  lemma TrimmedIsInfix(s: string)
    ensures forall c :: c in Text.Trim(s) ==> c in s
  {
    var t := Text.TrimStart(s);
    var r := Text.TrimEnd(t);
    forall c | c in r
      ensures c in s
    {
      var k :| 0 <= k < |r| && r[k] == c;
      assert t[k] == c;
      assert s[|s| - |t| + k] == c;
    }
  }

  /** A comma splits the input into the terms of its two sides, in order: the
      parsed terms keep the order of the pieces. */
  lemma ParseTermsAppend(a: string, b: string)
    ensures ParseTerms(a + "," + b) == ParseTerms(a) + ParseTerms(b)
  {
    Text.SplitAppend(a, b, ',');
    var pa, pb := Text.Split(a, ','), Text.Split(b, ',');
    Seqs.MapAppend(pa, pb, Text.Trim);
    Seqs.FilterAppend(Seqs.Map(pa, Text.Trim), Seqs.Map(pb, Text.Trim), NonEmpty);
  }

  /** Spaces after a comma are ignored. */
  lemma ParseTermsLeadingSpace(s: string)
    ensures ParseTerms(" " + s) == ParseTerms(s)
  {
    var ps := Text.Split(s, ',');
    var qs := Text.Split(" " + s, ',');
    assert (" " + s)[1..] == s;
    assert qs == [" " + ps[0]] + ps[1..];
    assert ps == [ps[0]] + ps[1..];
    Text.TrimLeadingSpace(ps[0]);
    Seqs.MapCons(" " + ps[0], ps[1..], Text.Trim);
    Seqs.MapCons(ps[0], ps[1..], Text.Trim);
  }

  /** A trimmed, non-empty string without commas parses to itself. */
  lemma ParseSingleTerm(t: string)
    requires t != "" && Text.Trimmed(t) && ',' !in t
    ensures ParseTerms(t) == [t]
  {
    Text.SplitWithoutSeparator(t, ',');
    assert Seqs.Map([t], Text.Trim) == [t];
  }

  /** `handleSaveNew`: a name that is blank after trimming creates nothing;
      otherwise a template with the untrimmed name, the parsed terms and the image
      string is appended after all existing templates. */
  function SaveNew(templates: seq<Template>, name: string, termsInput: string, image: string,
                   freshId: string): (r: seq<Template>)
    ensures Text.IsBlank(name) ==> r == templates
    ensures !Text.IsBlank(name) ==>
              && |r| == |templates| + 1
              && r[..|templates|] == templates
              && r[|templates|] == Template(freshId, name, ParseTerms(termsInput), Some(image))
              && (forall t :: t in r[|templates|].terms ==> t != "" && Text.Trimmed(t))
  {
    if Text.IsBlank(name) then templates
    else
      var r := templates + [Template(freshId, name, ParseTerms(termsInput), Some(image))];
      assert r[..|templates|] == templates;
      r
  }

  /** The test `t => t.id !== id`. */
  function IdIsNot(id: string): Template -> bool
  {
    (t: Template) => t.id != id
  }

  /** `handleDelete` once the user has confirmed: every template with the id goes,
      the rest keep their order, and an unknown id changes nothing. */
  function Delete(templates: seq<Template>, id: string): (r: seq<Template>)
    ensures Seqs.SubsequenceOf(r, templates)
    ensures forall t :: t in r <==> t in templates && t.id != id
    ensures forall t :: multiset(r)[t] == if t.id != id then multiset(templates)[t] else 0
    ensures (forall k :: 0 <= k < |templates| ==> templates[k].id != id) ==> r == templates
  {
    Seqs.FilterIsSubsequence(templates, IdIsNot(id));
    Seqs.FilterCounts(templates, IdIsNot(id));
    Seqs.Filter(templates, IdIsNot(id))
  }

  /** Deleting a template saved under a fresh id restores the list. */
  lemma SaveNewThenDelete(templates: seq<Template>, name: string, termsInput: string, image: string,
                          freshId: string)
    requires forall k :: 0 <= k < |templates| ==> templates[k].id != freshId
    ensures Delete(SaveNew(templates, name, termsInput, image, freshId), freshId) == templates
  {
    if !Text.IsBlank(name) {
      var t := Template(freshId, name, ParseTerms(termsInput), Some(image));
      Seqs.FilterAppend(templates, [t], IdIsNot(freshId));
      assert Seqs.Filter([t], IdIsNot(freshId)) == [];
    }
  }

  /** A piece of only whitespace yields no term. */
  lemma ParseBlankPiece(s: string)
    requires ',' !in s && Text.AllSpace(s)
    ensures ParseTerms(s) == []
  {
    Text.SplitWithoutSeparator(s, ',');
    assert Seqs.Map([s], Text.Trim) == [""];
  }

  /** Blank pieces between commas, as in "a, ,b" or "a,,b", are dropped. */
  lemma ParseTermsSkipsBlank(a: string, blank: string, b: string)
    requires ',' !in blank && Text.AllSpace(blank)
    ensures ParseTerms(a + "," + blank + "," + b) == ParseTerms(a) + ParseTerms(b)
  {
    var tail := blank + "," + b;
    assert a + "," + blank + "," + b == a + "," + tail;
    assert ParseTerms(tail) == ParseTerms(b) by {
      ParseTermsAppend(blank, b);
      ParseBlankPiece(blank);
    }
    ParseTermsAppend(a, tail);
  }
}

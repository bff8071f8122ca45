/** The template dialog of the editing page: saves the current selection under a
    name and deletes saved templates. Its template record has no image. The id the
    dialog draws from `crypto.randomUUID` is passed in as `freshId`. */
module TemplateDialog {
  import Seqs

  datatype Template = Template(id: string, name: string, terms: seq<string>)

  /** `handleSave`: an empty name or an empty selection saves nothing. The name is
      not trimmed, so a name of only spaces is accepted. The new template copies
      the selection and goes after all existing ones. */
  function Save(templates: seq<Template>, name: string, currentTerms: seq<string>, freshId: string): (r: seq<Template>)
    ensures name == "" || currentTerms == [] ==> r == templates
    ensures name != "" && currentTerms != [] ==>
              && |r| == |templates| + 1
              && r[..|templates|] == templates
              && r[|templates|] == Template(freshId, name, currentTerms)
  {
    if name == "" || |currentTerms| == 0 then templates
    else
      var r := templates + [Template(freshId, name, currentTerms)];
      assert r[..|templates|] == templates;
      r
  }

  /** The test `t => t.id !== id`. */
  function IdIsNot(id: string): Template -> bool
  {
    (t: Template) => t.id != id
  }

  /** `handleDelete`: every template with the id goes, the rest keep their order,
      and an unknown id changes nothing. */
  function Delete(templates: seq<Template>, id: string): (r: seq<Template>)
    ensures Seqs.SubsequenceOf(r, templates)
    ensures forall t :: t in r <==> t in templates && t.id != id
    ensures forall t :: multiset(r)[t] == if t.id != id then multiset(templates)[t] else 0
    ensures (forall k :: 0 <= k < |templates| ==> templates[k].id != id) ==> r == templates
  {
    Seqs.FilterIsSubsequence(templates, IdIsNot(id));
    Seqs.FilterCounts(templates, IdIsNot(id));
    Seqs.Filter(templates, IdIsNot(id))
  }

  /** A name of only whitespace is saved like any other, and the saved template is
      found by its id with the selection as its terms. */
  lemma BlankNameAccepted(templates: seq<Template>, currentTerms: seq<string>, freshId: string)
    requires currentTerms != []
    ensures var r := Save(templates, " ", currentTerms, freshId);
            exists t :: t in r && t.id == freshId && t.name == " " && t.terms == currentTerms
  {
    var r := Save(templates, " ", currentTerms, freshId);
    assert r[|templates|] in r;
  }

  /** Deleting a template saved under a fresh id restores the list. */
  lemma SaveThenDelete(templates: seq<Template>, name: string, currentTerms: seq<string>, freshId: string)
    requires forall k :: 0 <= k < |templates| ==> templates[k].id != freshId
    ensures Delete(Save(templates, name, currentTerms, freshId), freshId) == templates
  {
    if name != "" && currentTerms != [] {
      var t := Template(freshId, name, currentTerms);
      Seqs.FilterAppend(templates, [t], IdIsNot(freshId));
      assert Seqs.Filter([t], IdIsNot(freshId)) == [];
    }
  }
}

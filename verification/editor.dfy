/** The editing page: projects hold categories, categories hold terms, and the
    ordered selection of term texts forms the prompt. Every event handler of the
    page is a pure transition of the `Workspace` record; ids the page draws from
    the clock are passed in as `freshId`. Handlers address the active project by
    id, so when several projects share that id, all of them are edited, exactly
    as the page's `projects.map` does. */
module Editor {
  import Seqs
  import Text
  import opened Optional

  /** A reusable prompt fragment; its `text` doubles as its identity. */
  datatype Term = Term(text: string, image: Option<string>)

  datatype Category = Category(id: string, name: string, terms: seq<Term>)

  datatype Project = Project(id: string, name: string, categories: seq<Category>)

  /** The page state: the projects, the id of the open project tab and the
      ordered selection of term texts. */
  datatype Workspace = Workspace(projects: seq<Project>, activeProjectId: string, selection: seq<string>)

  function TextOf(t: Term): string
  {
    t.text
  }

  /** The texts of a term list, in order. */
  function Texts(terms: seq<Term>): (r: seq<string>)
    ensures |r| == |terms|
    ensures forall k :: 0 <= k < |terms| ==> r[k] == terms[k].text
  {
    Seqs.Map(terms, TextOf)
  }

  predicate HasProject(projects: seq<Project>, id: string)
  {
    exists p :: p in projects && p.id == id
  }

  /** The active id names an existing project, so the page shows a tab's content. */
  predicate ActiveExists(ws: Workspace)
  {
    HasProject(ws.projects, ws.activeProjectId)
  }

  /** The page's built-in content, used when nothing is stored. */
  function InitialWorkspace(): (ws: Workspace)
    ensures ActiveExists(ws) && ws.selection == []
  {
    var objects := Category("1", "Objekt", [Term("house", None), Term("car", None), Term("tree", None), Term("mountain", None)]);
    var colours := Category("2", "Farben", [Term("yellow roof", None), Term("blue sky", None), Term("green grass", None)]);
    var mood := Category("3", "Stimmung", [Term("professional", None), Term("clean", None), Term("modern", None)]);
    var projects := [Project("1", "Private", [objects, colours]), Project("2", "Work", [mood])];
    assert projects[0] in projects;
    Workspace(projects, projects[0].id, [])
  }

  // ---------------------------------------------------------------------------
  // Copy-on-write along the path active project -> category.

  /** `projects.map(p => p.id === activeId ? f(p) : p)`. */
  function MapActive(projects: seq<Project>, activeId: string, f: Project -> Project): (r: seq<Project>)
    ensures |r| == |projects|
    ensures forall i :: 0 <= i < |projects| ==>
              r[i] == if projects[i].id == activeId then f(projects[i]) else projects[i]
  {
    seq(|projects|, i requires 0 <= i < |projects| =>
      if projects[i].id == activeId then f(projects[i]) else projects[i])
  }

  /** `categories.map(c => c.id === categoryId ? f(c) : c)`. */
  function MapCategory(categories: seq<Category>, categoryId: string, f: Category -> Category): (r: seq<Category>)
    ensures |r| == |categories|
    ensures forall j :: 0 <= j < |categories| ==>
              r[j] == if categories[j].id == categoryId then f(categories[j]) else categories[j]
  {
    seq(|categories|, j requires 0 <= j < |categories| =>
      if categories[j].id == categoryId then f(categories[j]) else categories[j])
  }

  /** The terms of every category `categoryId` of the active project(s) are
      rewritten by `g`; nothing else changes. */
  function MapAddressedTerms(ws: Workspace, categoryId: string, g: seq<Term> -> seq<Term>): seq<Project>
  {
    MapActive(ws.projects, ws.activeProjectId,
      (p: Project) => p.(categories := MapCategory(p.categories, categoryId, (c: Category) => c.(terms := g(c.terms)))))
  }

  /** `r` differs from `ws` at most in the term lists of the categories with id
      `categoryId` inside the active project(s), and each such list is related to
      its old version by `changed`. */
  ghost predicate OnlyAddressedTermsChange(ws: Workspace, r: Workspace, categoryId: string,
                                           changed: (seq<Term>, seq<Term>) -> bool)
  {
    && r.activeProjectId == ws.activeProjectId
    && |r.projects| == |ws.projects|
    && forall i :: 0 <= i < |ws.projects| ==>
         var p, q := ws.projects[i], r.projects[i];
         if p.id != ws.activeProjectId then q == p
         else
           && q.id == p.id && q.name == p.name && |q.categories| == |p.categories|
           && forall j :: 0 <= j < |p.categories| ==>
                var c, d := p.categories[j], q.categories[j];
                if c.id != categoryId then d == c
                else d.id == c.id && d.name == c.name && changed(c.terms, d.terms)
  }

  /** Rewriting the addressed term lists by `g` changes only those lists, each as
      `changed` describes, when `g` always produces such a change. */
  lemma AddressedTermsChange(ws: Workspace, r: Workspace, categoryId: string, g: seq<Term> -> seq<Term>,
                             changed: (seq<Term>, seq<Term>) -> bool)
    requires r.projects == MapAddressedTerms(ws, categoryId, g) && r.activeProjectId == ws.activeProjectId
    requires forall ts :: changed(ts, g(ts))
    ensures OnlyAddressedTermsChange(ws, r, categoryId, changed)
  {
  }

  /** Some category of the active project(s) has id `categoryId`. */
  predicate Addresses(ws: Workspace, categoryId: string)
  {
    exists i, j :: 0 <= i < |ws.projects| && ws.projects[i].id == ws.activeProjectId
                   && 0 <= j < |ws.projects[i].categories| && ws.projects[i].categories[j].id == categoryId
  }

  /** A rewrite that only touches categories with id `categoryId` leaves the
      projects alone when the active project(s) have no such category. */
  lemma UnaddressedMapActive(ws: Workspace, categoryId: string, f: Project -> Project)
    requires forall p: Project :: (forall c: Category :: c in p.categories ==> c.id != categoryId) ==> f(p) == p
    ensures !Addresses(ws, categoryId) ==> MapActive(ws.projects, ws.activeProjectId, f) == ws.projects
  {
    if !Addresses(ws, categoryId) {
      var r := MapActive(ws.projects, ws.activeProjectId, f);
      forall i | 0 <= i < |ws.projects|
        ensures r[i] == ws.projects[i]
      {
        var p := ws.projects[i];
        if p.id == ws.activeProjectId {
          forall c | c in p.categories
            ensures c.id != categoryId
          {
            var j :| 0 <= j < |p.categories| && p.categories[j] == c;
          }
        }
      }
    }
  }

  // ---------------------------------------------------------------------------
  // Projects.

  /** `handleAddProject`: a name that is blank after trimming is ignored; otherwise
      a project with the trimmed name and no categories is appended and opened. */
  function AddProject(ws: Workspace, name: string, freshId: string): (r: Workspace)
    ensures Text.IsBlank(name) ==> r == ws
    ensures !Text.IsBlank(name) ==>
              && |r.projects| == |ws.projects| + 1
              && r.projects[..|ws.projects|] == ws.projects
              && r.projects[|ws.projects|] == Project(freshId, Text.Trim(name), [])
              && r.projects[|ws.projects|].name != ""
              && Text.Trimmed(r.projects[|ws.projects|].name)
              && r.activeProjectId == freshId && ActiveExists(r)
              && r.selection == ws.selection
  {
    if Text.IsBlank(name) then ws
    else
      var p := Project(freshId, Text.Trim(name), []);
      var r := ws.(projects := ws.projects + [p], activeProjectId := freshId);
      assert r.projects[|ws.projects|] == p;
      assert r.projects[..|ws.projects|] == ws.projects;
      r
  }

  /** The test `p => p.id !== id`. */
  function ProjectIdIsNot(id: string): Project -> bool
  {
    (p: Project) => p.id != id
  }

  /** `projects.find(p => p.id !== id)`. */
  function FindOther(projects: seq<Project>, id: string): (r: Option<Project>)
    ensures r.None? <==> forall k :: 0 <= k < |projects| ==> projects[k].id == id
    ensures r.Some? ==> r.value in projects && r.value.id != id
  {
    if |projects| == 0 then None
    else if projects[0].id != id then Some(projects[0])
    else FindOther(projects[1..], id)
  }

  /** The first project that survives a deletion is the one `find` returns. */
  lemma {:induction false} FindOtherIsFirstSurvivor(projects: seq<Project>, id: string)
    ensures var rest := Seqs.Filter(projects, ProjectIdIsNot(id));
            && (FindOther(projects, id).None? <==> |rest| == 0)
            && (|rest| > 0 ==> FindOther(projects, id) == Some(rest[0]))
    decreases |projects|
  {
    if |projects| > 0 {
      FindOtherIsFirstSurvivor(projects[1..], id);
    }
  }

  /** `handleDeleteProject`: every project with the id goes, the rest keep their
      order. When the deleted project was open and there was more than one project,
      the first surviving project is opened. If every project carried the id, the
      page's non-null assertion on `find` fails after the list update has been
      queued, so the list is emptied and the open id stays. */
  function DeleteProject(ws: Workspace, id: string): (r: Workspace)
    ensures r.selection == ws.selection
    ensures Seqs.SubsequenceOf(r.projects, ws.projects)
    ensures forall p :: p in r.projects <==> p in ws.projects && p.id != id
    ensures forall p :: multiset(r.projects)[p] == if p.id != id then multiset(ws.projects)[p] else 0
    ensures ws.activeProjectId == id && |ws.projects| > 1 && |r.projects| > 0 ==>
              r.activeProjectId == r.projects[0].id
    ensures !(ws.activeProjectId == id && |ws.projects| > 1) || |r.projects| == 0 ==>
              r.activeProjectId == ws.activeProjectId
    ensures !HasProject(ws.projects, id) ==> r.projects == ws.projects
  {
    var rest := Seqs.Filter(ws.projects, ProjectIdIsNot(id));
    Seqs.FilterIsSubsequence(ws.projects, ProjectIdIsNot(id));
    Seqs.FilterCounts(ws.projects, ProjectIdIsNot(id));
    FindOtherIsFirstSurvivor(ws.projects, id);
    if ws.activeProjectId == id && |ws.projects| > 1 then
      match FindOther(ws.projects, id)
      case Some(other) => Workspace(rest, other.id, ws.selection)
      case None => ws.(projects := rest)
    else
      ws.(projects := rest)
  }

  /** Deleting a project never leaves the page without an open project as long as
      some project with another id remains. */
  lemma DeleteProjectKeepsActive(ws: Workspace, id: string)
    requires ActiveExists(ws)
    requires exists p :: p in ws.projects && p.id != id
    ensures ActiveExists(DeleteProject(ws, id))
  {
    var r := DeleteProject(ws, id);
    var a :| a in ws.projects && a.id == ws.activeProjectId;
    var o :| o in ws.projects && o.id != id;
    if ws.activeProjectId == id {
      var ia :| 0 <= ia < |ws.projects| && ws.projects[ia] == a;
      var io :| 0 <= io < |ws.projects| && ws.projects[io] == o;
      assert ia != io;
      assert |ws.projects| > 1;
      assert o in r.projects;
      assert r.projects[0] in r.projects;
    } else {
      assert a in r.projects;
    }
  }

  /** Adding a project under a fresh id and deleting that id gives back the
      original project list. */
  lemma AddThenDeleteProject(ws: Workspace, name: string, freshId: string)
    requires !HasProject(ws.projects, freshId)
    ensures DeleteProject(AddProject(ws, name, freshId), freshId).projects == ws.projects
  {
    if !Text.IsBlank(name) {
      var p := Project(freshId, Text.Trim(name), []);
      var keep := ProjectIdIsNot(freshId);
      Seqs.FilterAppend(ws.projects, [p], keep);
      assert Seqs.Filter(ws.projects, keep) == ws.projects;
      assert Seqs.Filter([p], keep) == [];
    }
  }

  // ---------------------------------------------------------------------------
  // Categories of the active project.

  /** `handleAddCategory`: a blank name, or no project with the active id, is
      ignored; otherwise an empty category with the trimmed name is appended to the
      active project(s), and every other project stays as it was. */
  function AddCategory(ws: Workspace, name: string, freshId: string): (r: Workspace)
    ensures Text.IsBlank(name) || !ActiveExists(ws) ==> r == ws
    ensures !Text.IsBlank(name) && ActiveExists(ws) ==>
              && r.activeProjectId == ws.activeProjectId && r.selection == ws.selection
              && |r.projects| == |ws.projects|
              && forall i :: 0 <= i < |ws.projects| ==>
                   var p, q := ws.projects[i], r.projects[i];
                   if p.id != ws.activeProjectId then q == p
                   else
                     && q.id == p.id && q.name == p.name
                     && |q.categories| == |p.categories| + 1
                     && q.categories[..|p.categories|] == p.categories
                     && q.categories[|p.categories|] == Category(freshId, Text.Trim(name), [])
  {
    if Text.IsBlank(name) || !ActiveExists(ws) then ws
    else
      var c := Category(freshId, Text.Trim(name), []);
      var r := ws.(projects := MapActive(ws.projects, ws.activeProjectId, (p: Project) => p.(categories := p.categories + [c])));
      assert forall i :: 0 <= i < |ws.projects| && ws.projects[i].id == ws.activeProjectId ==>
               r.projects[i].categories[..|ws.projects[i].categories|] == ws.projects[i].categories;
      r
  }

  /** The test `c => c.id !== categoryId`. */
  function CategoryIdIsNot(categoryId: string): Category -> bool
  {
    (c: Category) => c.id != categoryId
  }

  /** Filtering out an id drops a category appended under it and keeps every
      category with another id. */
  lemma DeleteAppendedCategory(categories: seq<Category>, c: Category)
    requires forall j :: 0 <= j < |categories| ==> categories[j].id != c.id
    ensures Seqs.Filter(categories + [c], CategoryIdIsNot(c.id)) == categories
  {
    var keep := CategoryIdIsNot(c.id);
    Seqs.FilterAppend(categories, [c], keep);
    assert forall j :: 0 <= j < |categories| ==> keep(categories[j]);
    assert Seqs.Filter([c], keep) == [];
  }

  /** `handleDeleteCategory`: the categories with the id disappear from the active
      project(s), the others keep their order; nothing else changes, and an id the
      active project does not have changes nothing at all. */
  function DeleteCategory(ws: Workspace, categoryId: string): (r: Workspace)
    ensures r.activeProjectId == ws.activeProjectId && r.selection == ws.selection
    ensures |r.projects| == |ws.projects|
    ensures forall i :: 0 <= i < |ws.projects| ==>
              var p, q := ws.projects[i], r.projects[i];
              if p.id != ws.activeProjectId then q == p
              else
                && q.id == p.id && q.name == p.name
                && Seqs.SubsequenceOf(q.categories, p.categories)
                && (forall c :: c in q.categories <==> c in p.categories && c.id != categoryId)
                && forall c :: multiset(q.categories)[c] == if c.id != categoryId then multiset(p.categories)[c] else 0
    ensures !Addresses(ws, categoryId) ==> r == ws
  {
    var keep := CategoryIdIsNot(categoryId);
    var f := (p: Project) => p.(categories := Seqs.Filter(p.categories, keep));
    UnaddressedMapActive(ws, categoryId, f);
    forall p: Project | p in ws.projects
      ensures Seqs.SubsequenceOf(f(p).categories, p.categories)
      ensures forall c :: multiset(f(p).categories)[c] == if c.id != categoryId then multiset(p.categories)[c] else 0
    {
      Seqs.FilterIsSubsequence(p.categories, keep);
      Seqs.FilterCounts(p.categories, keep);
    }
    ws.(projects := MapActive(ws.projects, ws.activeProjectId, f))
  }

  /** `handleRenameCategory`: only the `name` of the addressed categories changes,
      never an id or a term list; an unknown id changes nothing. */
  function RenameCategory(ws: Workspace, categoryId: string, newName: string): (r: Workspace)
    ensures r.activeProjectId == ws.activeProjectId && r.selection == ws.selection
    ensures |r.projects| == |ws.projects|
    ensures forall i :: 0 <= i < |ws.projects| ==>
              var p, q := ws.projects[i], r.projects[i];
              if p.id != ws.activeProjectId then q == p
              else
                && q.id == p.id && q.name == p.name && |q.categories| == |p.categories|
                && forall j :: 0 <= j < |p.categories| ==>
                     var c, d := p.categories[j], q.categories[j];
                     && d.id == c.id && d.terms == c.terms
                     && d.name == if c.id == categoryId then newName else c.name
    ensures !Addresses(ws, categoryId) ==> r == ws
  {
    var f := (p: Project) => p.(categories := MapCategory(p.categories, categoryId, (c: Category) => c.(name := newName)));
    UnaddressedMapActive(ws, categoryId, f);
    ws.(projects := MapActive(ws.projects, ws.activeProjectId, f))
  }

  /** Adding a category under an id the active project(s) do not use, then deleting
      that id, gives back the original workspace. */
  lemma AddThenDeleteCategory(ws: Workspace, name: string, freshId: string)
    requires !Addresses(ws, freshId)
    ensures DeleteCategory(AddCategory(ws, name, freshId), freshId) == ws
  {
    if !Text.IsBlank(name) && ActiveExists(ws) {
      var a := AddCategory(ws, name, freshId);
      var r := DeleteCategory(a, freshId);
      var c := Category(freshId, Text.Trim(name), []);
      forall i | 0 <= i < |ws.projects|
        ensures r.projects[i] == ws.projects[i]
      {
        var p := ws.projects[i];
        if p.id == ws.activeProjectId {
          assert a.projects[i].categories == p.categories + [c];
          DeleteAppendedCategory(p.categories, c);
        }
      }
    }
  }

  /** Renaming twice is renaming once to the second name. */
  lemma RenameCategoryTwice(ws: Workspace, categoryId: string, first: string, second: string)
    ensures RenameCategory(RenameCategory(ws, categoryId, first), categoryId, second)
            == RenameCategory(ws, categoryId, second)
  {
    var a := RenameCategory(RenameCategory(ws, categoryId, first), categoryId, second);
    var b := RenameCategory(ws, categoryId, second);
    forall i | 0 <= i < |ws.projects|
      ensures a.projects[i] == b.projects[i]
    {
      if ws.projects[i].id == ws.activeProjectId {
        assert a.projects[i].categories == b.projects[i].categories;
      }
    }
  }

  // ---------------------------------------------------------------------------
  // Terms of a category of the active project.

  /** The change `handleAddTerm` makes to a term list: `t` is appended. */
  function AppendsTerm(t: Term): (seq<Term>, seq<Term>) -> bool
  {
    (before: seq<Term>, after: seq<Term>) =>
      |after| == |before| + 1 && after[..|before|] == before && after[|before|] == t
  }

  /** `handleAddTerm`: `{text, image}` becomes the last term of each addressed
      category, whose term count grows by exactly one. Duplicate texts are not
      rejected. The only caller trims the text and refuses a blank one. */
  function AddTerm(ws: Workspace, categoryId: string, text: string, image: Option<string>): (r: Workspace)
    ensures r.selection == ws.selection
    ensures OnlyAddressedTermsChange(ws, r, categoryId, AppendsTerm(Term(text, image)))
  {
    var add := (ts: seq<Term>) => ts + [Term(text, image)];
    var r := ws.(projects := MapAddressedTerms(ws, categoryId, add));
    assert forall ts: seq<Term> :: add(ts)[..|ts|] == ts;
    AddressedTermsChange(ws, r, categoryId, add, AppendsTerm(Term(text, image)));
    r
  }

  /** The test `t => t.text !== text`. */
  function TextIsNot(text: string): Term -> bool
  {
    (t: Term) => t.text != text
  }

  /** `cat.terms.filter(t => t.text !== text)`. */
  function RemoveTermFrom(terms: seq<Term>, text: string): (r: seq<Term>)
    ensures Seqs.SubsequenceOf(r, terms)
    ensures forall t :: t in r <==> t in terms && t.text != text
    ensures forall t :: multiset(r)[t] == if t.text != text then multiset(terms)[t] else 0
  {
    Seqs.FilterIsSubsequence(terms, TextIsNot(text));
    Seqs.FilterCounts(terms, TextIsNot(text));
    Seqs.Filter(terms, TextIsNot(text))
  }

  /** The change `handleRemoveTerm` makes to a term list: the terms with `text`
      go, the others stay in order and as often as they were there. */
  ghost function DropsText(text: string): (seq<Term>, seq<Term>) -> bool
  {
    (before: seq<Term>, after: seq<Term>) =>
      && Seqs.SubsequenceOf(after, before)
      && (forall t :: t in after <==> t in before && t.text != text)
      && forall t :: multiset(after)[t] == if t.text != text then multiset(before)[t] else 0
  }

  /** `handleRemoveTerm`: every term with the text leaves each addressed category,
      the rest keep their order, and every occurrence of the text leaves the
      selection. */
  function RemoveTerm(ws: Workspace, categoryId: string, text: string): (r: Workspace)
    ensures OnlyAddressedTermsChange(ws, r, categoryId, DropsText(text))
    ensures text !in r.selection
    ensures Seqs.SubsequenceOf(r.selection, ws.selection)
    ensures forall s :: s != text ==> multiset(r.selection)[s] == multiset(ws.selection)[s]
  {
    var remove := (ts: seq<Term>) => RemoveTermFrom(ts, text);
    var r := Workspace(MapAddressedTerms(ws, categoryId, remove), ws.activeProjectId,
                       Seqs.RemoveAll(ws.selection, text));
    AddressedTermsChange(ws, r, categoryId, remove, DropsText(text));
    r
  }

  /** `cat.terms.map(t => t.text === oldText ? {text: newText, image: newImage} : t)`. */
  function EditTermIn(terms: seq<Term>, oldText: string, newText: string, newImage: Option<string>): (r: seq<Term>)
    ensures |r| == |terms|
    ensures forall k :: 0 <= k < |terms| ==>
              r[k] == if terms[k].text == oldText then Term(newText, newImage) else terms[k]
  {
    seq(|terms|, k requires 0 <= k < |terms| =>
      if terms[k].text == oldText then Term(newText, newImage) else terms[k])
  }

  /** The change `handleEditTerm` makes to a term list: positions are kept and
      every term with `oldText` becomes `{newText, newImage}`. */
  function ReplacesText(oldText: string, newText: string, newImage: Option<string>): (seq<Term>, seq<Term>) -> bool
  {
    (before: seq<Term>, after: seq<Term>) =>
      && |after| == |before|
      && forall k :: 0 <= k < |before| ==>
           after[k] == if before[k].text == oldText then Term(newText, newImage) else before[k]
  }

  /** `handleEditTerm`: in each addressed category every term with the old text is
      replaced in place, so length and positions are kept; when the text changes,
      every selected occurrence of the old text is renamed where it stands. */
  function EditTerm(ws: Workspace, categoryId: string, oldText: string, newText: string,
                    newImage: Option<string>): (r: Workspace)
    ensures OnlyAddressedTermsChange(ws, r, categoryId, ReplacesText(oldText, newText, newImage))
    ensures |r.selection| == |ws.selection|
    ensures forall k :: 0 <= k < |ws.selection| ==>
              r.selection[k] == if ws.selection[k] == oldText then newText else ws.selection[k]
  {
    var selection := if oldText != newText then Seqs.ReplaceAll(ws.selection, oldText, newText)
                     else ws.selection;
    var edit := (ts: seq<Term>) => EditTermIn(ts, oldText, newText, newImage);
    var r := Workspace(MapAddressedTerms(ws, categoryId, edit), ws.activeProjectId, selection);
    AddressedTermsChange(ws, r, categoryId, edit, ReplacesText(oldText, newText, newImage));
    r
  }

  /** Removing a term drops exactly its text from the category's texts: the same
      operation the selection undergoes. */
  lemma RemoveTermTexts(terms: seq<Term>, text: string)
    ensures Texts(RemoveTermFrom(terms, text)) == Seqs.RemoveAll(Texts(terms), text)
  {
    Seqs.FilterMap(terms, TextOf, TextIsNot(text), Seqs.Differs(text));
  }

  /** Editing a term renames its text in the category's texts: the same operation
      the selection undergoes. */
  lemma EditTermTexts(terms: seq<Term>, oldText: string, newText: string, newImage: Option<string>)
    ensures Texts(EditTermIn(terms, oldText, newText, newImage)) == Seqs.ReplaceAll(Texts(terms), oldText, newText)
  {
  }

  /** Adding a term and removing its text is the same as only removing it. */
  lemma AddThenRemoveTerm(ws: Workspace, categoryId: string, text: string, image: Option<string>)
    ensures RemoveTerm(AddTerm(ws, categoryId, text, image), categoryId, text) == RemoveTerm(ws, categoryId, text)
  {
    var a := RemoveTerm(AddTerm(ws, categoryId, text, image), categoryId, text);
    var b := RemoveTerm(ws, categoryId, text);
    var keep := (t: Term) => t.text != text;
    forall i | 0 <= i < |ws.projects|
      ensures a.projects[i] == b.projects[i]
    {
      var p := ws.projects[i];
      if p.id == ws.activeProjectId {
        forall j | 0 <= j < |p.categories|
          ensures a.projects[i].categories[j] == b.projects[i].categories[j]
        {
          var c := p.categories[j];
          if c.id == categoryId {
            Seqs.FilterAppend(c.terms, [Term(text, image)], keep);
            assert Seqs.Filter([Term(text, image)], keep) == [];
          }
        }
      }
    }
  }

  /** Removing a term and adding it again puts it last, not back where it was:
      its text then occurs exactly once, at the end. */
  lemma RemoveThenAddTermIsLast(terms: seq<Term>, text: string, image: Option<string>)
    ensures var r := RemoveTermFrom(terms, text) + [Term(text, image)];
            && r[|r| - 1] == Term(text, image)
            && forall k :: 0 <= k < |r| - 1 ==> r[k].text != text
  {
    var rest := RemoveTermFrom(terms, text);
    assert forall k :: 0 <= k < |rest| ==> rest[k] in rest;
  }

  /** Renaming a term to a text not yet selected and back restores the selection. */
  lemma EditTermBackRestoresSelection(ws: Workspace, categoryId: string, oldText: string, newText: string,
                                      newImage: Option<string>, oldImage: Option<string>)
    requires newText !in ws.selection
    ensures EditTerm(EditTerm(ws, categoryId, oldText, newText, newImage), categoryId, newText, oldText, oldImage).selection
            == ws.selection
  {
    if oldText != newText {
      Seqs.ReplaceAllInverse(ws.selection, oldText, newText);
    }
  }

  // ---------------------------------------------------------------------------
  // Selection.

  /** `handleSelectTerm`: a selected text is removed everywhere in the selection,
      an unselected one is appended, so the prompt follows the order of selection. */
  function SelectTerm(ws: Workspace, text: string): (r: Workspace)
    ensures r.projects == ws.projects && r.activeProjectId == ws.activeProjectId
    ensures text in ws.selection ==>
              && text !in r.selection
              && Seqs.SubsequenceOf(r.selection, ws.selection)
              && forall s :: s != text ==> multiset(r.selection)[s] == multiset(ws.selection)[s]
    ensures text !in ws.selection ==> r.selection == ws.selection + [text]
  {
    if text in ws.selection then ws.(selection := Seqs.RemoveAll(ws.selection, text))
    else ws.(selection := ws.selection + [text])
  }

  /** Toggling an unselected text twice restores the selection. */
  lemma SelectTermTwice(ws: Workspace, text: string)
    requires text !in ws.selection
    ensures SelectTerm(SelectTerm(ws, text), text) == ws
  {
    var keep := Seqs.Differs(text);
    Seqs.FilterAppend(ws.selection, [text], keep);
    assert forall i :: 0 <= i < |ws.selection| ==> keep(ws.selection[i]);
    assert Seqs.Filter([text], keep) == [];
  }

  /** Toggling a selected text twice moves it to the end of the selection. */
  lemma SelectTermTwiceMovesLast(ws: Workspace, text: string)
    requires text in ws.selection
    ensures SelectTerm(SelectTerm(ws, text), text).selection == Seqs.RemoveAll(ws.selection, text) + [text]
  {
  }

  /** With the selection a, b, c of distinct texts, toggling b gives a, c and
      toggling it again gives a, c, b. */
  lemma SelectTermScenario(ws: Workspace, a: string, b: string, c: string)
    requires a != b && b != c
    requires ws.selection == [a, b, c]
    ensures SelectTerm(ws, b).selection == [a, c]
    ensures SelectTerm(SelectTerm(ws, b), b).selection == [a, c, b]
  {
    var keep := Seqs.Differs(b);
    assert Seqs.Filter([a, b, c], keep) == [a, c] by {
      assert [c] == [c] + [];
      Seqs.FilterCons(c, [], keep);
      assert [b, c] == [b] + [c];
      Seqs.FilterCons(b, [c], keep);
      assert [a, b, c] == [a] + [b, c];
      Seqs.FilterCons(a, [b, c], keep);
    }
  }

  /** `handleClearSelection`. */
  function ClearSelection(ws: Workspace): (r: Workspace)
    ensures r.selection == [] && r.projects == ws.projects && r.activeProjectId == ws.activeProjectId
  {
    ws.(selection := [])
  }

  /** `handleClearAllData`: projects and selection go; the open project id is kept. */
  function ClearAllData(ws: Workspace): (r: Workspace)
    ensures r.projects == [] && r.selection == [] && r.activeProjectId == ws.activeProjectId
    ensures !ActiveExists(r)
  {
    Workspace([], ws.activeProjectId, [])
  }
}

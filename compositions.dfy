/** The composition builder page: the live prompt preview, the builder form
    state with its fragment toggle and save gate, and the id-to-name lookups
    used by the list of existing compositions. */
module Compositions {
  import opened Entities
  import Text

  /** Separator between the parts of an assembled prompt. */
  const Separator: string := "\n\n"

  /** The value of the persona `<select>`: `None` is the "Choose a persona..."
      option (the empty string), `Some(n)` the option of persona `n`. */
  type Selection = Option<int>

  /** The string the `<select>` holds: "" for the placeholder option, the
      persona id rendered in decimal for a persona's option. */
  function OptionValue(sel: Selection): string
  {
    match sel
    case None => ""
    case Some(v) => Text.IntToDecimal(v)
  }

  /** `p.id == selection` under JavaScript's loose equality, which converts the
      string to a number: "" becomes 0, and a decimal rendering becomes the
      number it renders. */
  predicate SelectionMatches(sel: Selection, id: int)
    ensures SelectionMatches(sel, id)
            <==> (OptionValue(sel) == "" && id == 0) || OptionValue(sel) == Text.IntToDecimal(id)
  {
    match sel
    case None => id == 0
    case Some(v) => Text.IntToDecimalEqualIff(v, id); id == v
  }

  // ---------------------------------------------------------------------
  // Live preview

  /** What the preview panel shows: the placeholder, or the assembled prompt
      with its two statistics. */
  datatype Preview = Placeholder | Shown(text: string, characters: nat, parts: nat)

  /** `personas.find(p => p.id == selection)`. */
  function SelectedPersona(personas: seq<Persona>, sel: Selection): (r: Option<Persona>)
    ensures r.None? <==> forall i :: 0 <= i < |personas| ==> !SelectionMatches(sel, personas[i].id)
    ensures r.Some? ==> exists k :: 0 <= k < |personas| && personas[k] == r.value
                                    && SelectionMatches(sel, personas[k].id)
                                    && forall j :: 0 <= j < k ==> !SelectionMatches(sel, personas[j].id)
  {
    FindFirst(personas, (p: Persona) => SelectionMatches(sel, p.id))
  }

  /** `fragments.filter(f => fragment_ids.includes(f.id))`: catalogue order,
      whatever the order or the repetitions of the selected ids. */
  function SelectedFragments(catalogue: seq<Fragment>, ids: seq<int>): (r: seq<Fragment>)
    ensures forall f :: f in r <==> f in catalogue && f.id in ids
    ensures |r| <= |catalogue|
  {
    Filter(catalogue, (f: Fragment) => f.id in ids)
  }

  /** The text a fragment contributes to `join`, which renders a missing value as "". */
  function FragmentText(f: Fragment): (t: string)
    ensures f.content.Some? ==> t == f.content.value
    ensures f.content.None? ==> t == ""
  {
    match f.content
    case Some(c) => c
    case None => ""
  }

  function Contents(fs: seq<Fragment>): (r: seq<string>)
    ensures |r| == |fs|
    ensures forall i :: 0 <= i < |fs| ==> r[i] == FragmentText(fs[i])
  {
    if fs == [] then [] else [FragmentText(fs[0])] + Contents(fs[1..])
  }

  /** `promptParts`: the persona's content, then the selected fragments' contents. */
  function PromptParts(persona: Persona, selected: seq<Fragment>): (r: seq<string>)
    ensures |r| == 1 + |selected|
    ensures r[0] == persona.content
    ensures forall i :: 0 <= i < |selected| ==> r[i + 1] == FragmentText(selected[i])
  {
    [persona.content] + Contents(selected)
  }

  /** The preview block: placeholder when no persona matches the selection,
      otherwise the parts joined by a blank line, with the length of the
      joined text and the number of parts. */
  function LivePreview(personas: seq<Persona>, catalogue: seq<Fragment>, sel: Selection, ids: seq<int>)
    : (r: Preview)
    ensures r.Placeholder? <==> forall i :: 0 <= i < |personas| ==> !SelectionMatches(sel, personas[i].id)
  {
    match SelectedPersona(personas, sel)
    case None => Placeholder
    case Some(p) =>
      var parts := PromptParts(p, SelectedFragments(catalogue, ids));
      var text := Text.Join(parts, Separator);
      Shown(text, |text|, |parts|)
  }

  /** When persona `k` is the first to match the selection, the preview starts
      with its content and has one part per selected catalogue fragment besides. */
  lemma PreviewStartsWithPersona(personas: seq<Persona>, catalogue: seq<Fragment>, sel: Selection,
                                 ids: seq<int>, k: nat)
    requires k < |personas| && SelectionMatches(sel, personas[k].id)
    requires forall j :: 0 <= j < k ==> !SelectionMatches(sel, personas[j].id)
    ensures var r := LivePreview(personas, catalogue, sel, ids);
            && r.Shown?
            && r.parts == 1 + |SelectedFragments(catalogue, ids)|
            && personas[k].content <= r.text
  {
    FindFirstAt(personas, (p: Persona) => SelectionMatches(sel, p.id), k);
  }

  /** The selected fragments are the catalogue entries whose id is selected,
      each exactly as often as the catalogue holds it (a repeated selected id
      adds nothing), in catalogue order. */
  lemma SelectedFragmentsFromCatalogue(catalogue: seq<Fragment>, ids: seq<int>)
    ensures forall f :: multiset(SelectedFragments(catalogue, ids))[f]
                          == if f.id in ids then multiset(catalogue)[f] else 0
    ensures Subsequence(SelectedFragments(catalogue, ids), catalogue)
  {
    FilterMultiset(catalogue, (f: Fragment) => f.id in ids);
    FilterIsSubsequence(catalogue, (f: Fragment) => f.id in ids);
  }

  /** The order in which fragments were clicked, and repeated clicks, do not
      change the preview: only the set of selected ids matters. */
  lemma PreviewIgnoresSelectionOrder(personas: seq<Persona>, catalogue: seq<Fragment>, sel: Selection,
                                     ids1: seq<int>, ids2: seq<int>)
    requires forall x :: x in ids1 <==> x in ids2
    ensures LivePreview(personas, catalogue, sel, ids1) == LivePreview(personas, catalogue, sel, ids2)
  {
    FilterCongruent(catalogue, (f: Fragment) => f.id in ids1, (f: Fragment) => f.id in ids2);
  }

  /** With no catalogue fragment selected the prompt is the persona's content
      exactly, one part, no trailing separator. */
  lemma PreviewPersonaOnly(personas: seq<Persona>, catalogue: seq<Fragment>, sel: Selection,
                           ids: seq<int>, k: nat)
    requires k < |personas| && SelectionMatches(sel, personas[k].id)
    requires forall j :: 0 <= j < k ==> !SelectionMatches(sel, personas[j].id)
    requires forall i :: 0 <= i < |catalogue| ==> catalogue[i].id !in ids
    ensures LivePreview(personas, catalogue, sel, ids)
            == Shown(personas[k].content, |personas[k].content|, 1)
  {
    FindFirstAt(personas, (p: Persona) => SelectionMatches(sel, p.id), k);
    FilterKeepsNone(catalogue, (f: Fragment) => f.id in ids);
    assert PromptParts(personas[k], []) == [personas[k].content];
  }

  /** The character count is the parts' lengths plus two per separator. */
  lemma PreviewCharacterCount(personas: seq<Persona>, catalogue: seq<Fragment>, sel: Selection, ids: seq<int>)
    requires LivePreview(personas, catalogue, sel, ids).Shown?
    ensures var r := LivePreview(personas, catalogue, sel, ids);
            var p := SelectedPersona(personas, sel).value;
            r.characters == Text.TotalLength(PromptParts(p, SelectedFragments(catalogue, ids)))
                            + 2 * (r.parts - 1)
  {
    var p := SelectedPersona(personas, sel).value;
    Text.JoinLength(PromptParts(p, SelectedFragments(catalogue, ids)), Separator);
  }

  /** With the first persona selected and every catalogue fragment selected,
      the prompt is the persona followed by the whole catalogue. */
  lemma PreviewOfWholeCatalogue(personas: seq<Persona>, catalogue: seq<Fragment>, sel: Selection, ids: seq<int>)
    requires |personas| > 0 && SelectionMatches(sel, personas[0].id)
    requires forall i :: 0 <= i < |catalogue| ==> catalogue[i].id in ids
    ensures var text := Text.Join(PromptParts(personas[0], catalogue), Separator);
            LivePreview(personas, catalogue, sel, ids) == Shown(text, |text|, 1 + |catalogue|)
  {
    FindFirstAt(personas, (p: Persona) => SelectionMatches(sel, p.id), 0);
    FilterKeepsAll(catalogue, (f: Fragment) => f.id in ids);
  }

  /** Persona "A" with fragments "B" and "C" selected: three parts, seven characters. */
  lemma PreviewThreeParts()
    ensures LivePreview([Persona(1, "P", "A", false)],
                        [Fragment(10, "F1", Some("B"), false), Fragment(11, "F2", Some("C"), false)],
                        Some(1), [11, 10])
            == Shown("A\n\nB\n\nC", 7, 3)
  {
    var personas := [Persona(1, "P", "A", false)];
    var catalogue := [Fragment(10, "F1", Some("B"), false), Fragment(11, "F2", Some("C"), false)];
    PreviewOfWholeCatalogue(personas, catalogue, Some(1), [11, 10]);
    assert PromptParts(personas[0], catalogue) == ["A", "B", "C"];
    JoinedThreeParts();
  }

  lemma JoinedThreeParts()
    ensures Text.Join(["A", "B", "C"], Separator) == "A\n\nB\n\nC"
  {
    Text.JoinThree("A", "B", "C", Separator);
  }

  /** Persona "Be fair." with fragment "Be concise." selected: two parts, 21 characters. */
  lemma PreviewTwoParts()
    ensures LivePreview([Persona(1, "Fair", "Be fair.", false)],
                        [Fragment(10, "Concise", Some("Be concise."), false)],
                        Some(1), [10])
            == Shown("Be fair.\n\nBe concise.", 21, 2)
  {
    var personas := [Persona(1, "Fair", "Be fair.", false)];
    var catalogue := [Fragment(10, "Concise", Some("Be concise."), false)];
    PreviewOfWholeCatalogue(personas, catalogue, Some(1), [10]);
    assert PromptParts(personas[0], catalogue) == ["Be fair.", "Be concise."];
    JoinedTwoParts();
  }

  lemma JoinedTwoParts()
    ensures Text.Join(["Be fair.", "Be concise."], Separator) == "Be fair.\n\nBe concise."
  {
    Text.JoinTwo("Be fair.", "Be concise.", Separator);
  }

  // ---------------------------------------------------------------------
  // Builder form state

  /** The body POSTed when a composition is saved. */
  datatype CompositionRequest = CompositionRequest(name: string, ethical_persona_id: int, fragment_ids: seq<int>)

  /** The save gate: a request is sent only for a non-empty name and a chosen persona. */
  function SaveRequest(name: string, sel: Selection, ids: seq<int>): (r: Option<CompositionRequest>)
    ensures r.None? <==> name == "" || sel.None?
    ensures r.Some? ==> r.value.name == name && sel == Some(r.value.ethical_persona_id)
                        && r.value.fragment_ids == ids
  {
    if name == "" || sel.None? then None else Some(CompositionRequest(name, sel.value, ids))
  }

  /** `toggleFragment`'s new list: a selected id is removed everywhere it occurs,
      an unselected one is appended; every other id keeps its multiplicity. */
  function Toggled(ids: seq<int>, id: int): (r: seq<int>)
    ensures id in r <==> id !in ids
    ensures forall x :: x != id ==> multiset(r)[x] == multiset(ids)[x]
    ensures id in ids ==> Subsequence(r, ids)
    ensures id !in ids ==> |r| == |ids| + 1 && r[..|ids|] == ids && r[|ids|] == id
  {
    if id in ids then
      FilterMultiset(ids, x => x != id);
      FilterIsSubsequence(ids, x => x != id);
      Filter(ids, x => x != id)
    else
      assert (ids + [id])[..|ids|] == ids;
      ids + [id]
  }

  /** Toggling an unselected id twice restores the list exactly. */
  lemma ToggleTwiceRestores(ids: seq<int>, id: int)
    requires id !in ids
    ensures Toggled(Toggled(ids, id), id) == ids
  {
    FilterConcat(ids, [id], x => x != id);
    FilterKeepsAll(ids, x => x != id);
  }

  /** Toggling a selected id twice leaves a single copy of it, moved to the end. */
  lemma ToggleTwiceMovesToEnd(ids: seq<int>, id: int)
    requires id in ids
    ensures Toggled(Toggled(ids, id), id) == Filter(ids, x => x != id) + [id]
  {
  }

  /** The `newComposition` record and the builder's visibility flag. */
  class CompositionBuilder {
    var name: string
    var personaId: Selection
    var fragmentIds: seq<int>
    var showBuilder: bool

    /** Initial state: empty form, builder closed. */
    constructor ()
      ensures name == "" && personaId == None && fragmentIds == [] && !showBuilder
    {
      name, personaId, fragmentIds, showBuilder := "", None, [], false;
    }

    /** "Create New Composition". */
    method Open()
      modifies this`showBuilder
      ensures showBuilder
    {
      showBuilder := true;
    }

    /** The name input's change handler. */
    method SetName(n: string)
      modifies this`name
      ensures name == n
    {
      name := n;
    }

    /** The persona select's change handler. */
    method SelectPersona(sel: Selection)
      modifies this`personaId
      ensures personaId == sel
    {
      personaId := sel;
    }

    /** A click on a fragment card: only the fragment list changes. */
    method ToggleFragment(id: int)
      modifies this`fragmentIds
      ensures fragmentIds == Toggled(old(fragmentIds), id)
      ensures name == old(name) && personaId == old(personaId)
    {
      fragmentIds := Toggled(fragmentIds, id);
    }

    /** "Cancel": close the builder and clear the form. */
    method Cancel()
      modifies this
      ensures name == "" && personaId == None && fragmentIds == [] && !showBuilder
    {
      name, personaId, fragmentIds, showBuilder := "", None, [], false;
    }

    /** "Save Composition": the request sent (none when the gate refuses), the
        alert shown, and the form cleared and closed only after a success. */
    method Save(reply: Reply) returns (request: Option<CompositionRequest>, notice: string)
      modifies this
      ensures request == SaveRequest(old(name), old(personaId), old(fragmentIds))
      ensures request.None? ==> unchanged(this) && notice == "Please enter name and select a persona"
      ensures request.Some? && reply.Accepted? ==>
                name == "" && personaId == None && fragmentIds == [] && !showBuilder
                && notice == "Composition saved!"
      ensures request.Some? && reply.Refused? ==>
                unchanged(this) && notice == "Error: " + FailureMessage(reply.detail, "Failed to save composition")
      ensures request.Some? && reply.Unreachable? ==>
                unchanged(this) && notice == "Error: " + reply.message
    {
      request := SaveRequest(name, personaId, fragmentIds);
      if request.None? {
        notice := "Please enter name and select a persona";
        return;
      }
      match reply
      case Accepted =>
        name, personaId, fragmentIds, showBuilder := "", None, [], false;
        notice := "Composition saved!";
      case Refused(detail) =>
        notice := "Error: " + FailureMessage(detail, "Failed to save composition");
      case Unreachable(message) =>
        notice := "Error: " + message;
    }
  }

  // ---------------------------------------------------------------------
  // Names shown in the list of existing compositions

  /** `getPersonaName`: the name of the first persona with that id, else `ID: n`. */
  function PersonaName(personas: seq<Persona>, id: int): (r: string)
    ensures (forall i :: 0 <= i < |personas| ==> personas[i].id != id) ==> r == IdLabel(id)
    ensures forall k :: (0 <= k < |personas| && personas[k].id == id
                         && forall j :: 0 <= j < k ==> personas[j].id != id) ==> r == personas[k].name
  {
    match FindFirst(personas, (p: Persona) => p.id == id)
    case Some(p) => p.name
    case None => IdLabel(id)
  }

  /** The label of one stored fragment id: the first catalogue name with that id, else `ID: n`. */
  function FragmentLabel(catalogue: seq<Fragment>, id: int): (r: string)
    ensures (forall i :: 0 <= i < |catalogue| ==> catalogue[i].id != id) ==> r == IdLabel(id)
    ensures forall k :: (0 <= k < |catalogue| && catalogue[k].id == id
                         && forall j :: 0 <= j < k ==> catalogue[j].id != id) ==> r == catalogue[k].name
  {
    match FindFirst(catalogue, (f: Fragment) => f.id == id)
    case Some(f) => f.name
    case None => IdLabel(id)
  }

  function FragmentLabels(catalogue: seq<Fragment>, ids: seq<int>): (r: seq<string>)
    ensures |r| == |ids|
    ensures forall i :: 0 <= i < |ids| ==> r[i] == FragmentLabel(catalogue, ids[i])
  {
    seq(|ids|, i requires 0 <= i < |ids| => FragmentLabel(catalogue, ids[i]))
  }

  /** `getFragmentNames`: "No fragments" for a null or empty list, otherwise the
      labels of the stored ids joined by ", ". */
  function FragmentNames(catalogue: seq<Fragment>, stored: Option<seq<int>>): (r: string)
    ensures stored.None? || stored.value == [] ==> r == "No fragments"
  {
    if stored.None? || stored.value == [] then "No fragments"
    else Text.Join(FragmentLabels(catalogue, stored.value), ", ")
  }

  /** One label per stored id, in stored order: appending an id appends its
      label after a ", ". */
  lemma FragmentNamesAppend(catalogue: seq<Fragment>, ids: seq<int>, id: int)
    requires ids != []
    ensures FragmentNames(catalogue, Some(ids + [id]))
            == FragmentNames(catalogue, Some(ids)) + ", " + FragmentLabel(catalogue, id)
  {
    var labels := FragmentLabels(catalogue, ids);
    assert FragmentLabels(catalogue, ids + [id]) == labels + [FragmentLabel(catalogue, id)];
    Text.JoinConcat(labels, [FragmentLabel(catalogue, id)], ", ");
  }

  /** A single stored id shows just its label. */
  lemma FragmentNamesSingle(catalogue: seq<Fragment>, id: int)
    ensures FragmentNames(catalogue, Some([id])) == FragmentLabel(catalogue, id)
  {
    assert FragmentLabels(catalogue, [id]) == [FragmentLabel(catalogue, id)];
  }
}

# Prompt manager console: the page logic, in Dafny

The console administers the building blocks of AI system prompts. **Personas**
are blocks of ethical framing. **Fragments** are smaller modifier blocks.
**Compositions** pair one persona with some fragment ids, and one composition
is marked active for an evaluation backend. Every page loads lists from an
HTTP backend and renders them. This project models the rules buried in those
pages. The loaded lists and the backend's replies are parameters.

- `text.dfy` (module `Text`): `Array.prototype.join` and the decimal rendering
  of an id. It proves the length of a joined string, how two joined runs meet,
  and that rendering an id loses nothing, by reading the digits back.
- `entities.dfy` (module `Entities`): the records (`Persona`, `Fragment`,
  `Composition`), the `Reply` a write request ends in, the `err.detail ||
  fallback` rule, and `find`/`filter` with their laws. The laws are
  first-match, multiplicity, order (subsequence), congruence and concatenation.
- `compositions.dfy` (module `Compositions`): the live prompt preview, the
  builder form as a class (`CompositionBuilder`) with the fragment toggle and
  the save gate, and the id-to-name lookups used by the composition list.
- `personas.dfy` (module `Personas`): the split of the loaded personas into
  the user's own, newest first, and the system ones, by name. The split is a
  stable insertion sort driven by the page's comparators. The module also has
  the persona cards with their delete buttons, the empty state, and the save
  and delete flows. The composition builder's persona dropdown uses the same
  two ordered lists (src/app/compositions/page.js:199-215).
- `fragments.dfy` (module `Fragments`): fragment cards with the length
  fallback and the delete gate, the empty state, and the save and delete flows.
- `landing.dfy` (module `Landing`): the landing page's two state fields as a
  class (`HomePage`). Its methods are proved against the pure transitions
  `AfterLoad` and `AfterSwitch`, and lemmas state what those transitions do.
  The page runs `loadCompositions` once, on mount, from the initial state. It
  also defines a `switchComposition` handler (src/app/page.js:41-62) that
  nothing on the page calls. `AfterSwitch` and `HomePage.SwitchComposition`
  model that handler as written.

Points where the model follows the code closely:

- **Preview order.** The preview lists the selected fragments in catalogue
  order, not click order, because it filters the loaded catalogue. A catalogue
  fragment appears at most once, however often its id was clicked.
- **Character counts.** `"A\n\nB\n\nC"` is 7 characters long and
  `"Be fair.\n\nBe concise."` is 21 (`PreviewThreeParts`, `PreviewTwoParts`).
- **Loose equality.** The preview finds the persona with loose equality
  (`p.id == selection`). The placeholder option's value `""` therefore matches
  a persona whose id is 0. `SelectionMatches` models this.
- **Missing fragment content.** On the fragments page a fragment whose
  `content` is missing shows length 0. On the compositions page such a
  fragment makes the builder's fragment grid throw (see "## Left out").
- **Cleared versus initial.** On the landing page, an empty list (or a
  `{detail: "Not Found"}` body) stores `[]` as the active value. A JavaScript
  array is truthy, so the banner then shows the green dot with no name. The
  banner reads "No active composition" only for the initial `""`.
  `ClearedIsNotInitial` and `BannerNoActiveIff` state this.
- **Other error bodies.** An error object other than "Not Found" is stored as
  the composition list before `data.find` throws. The active value is then
  left as it was.

## Model

| member | source | states |
|---|---|---|
| Text.Join | src/app/compositions/page.js:147 | Joining no parts gives "", one part gives that part, and otherwise the first part begins the result. |
| Text.JoinLength | src/app/compositions/page.js:275 | A string joined from n ≥ 1 parts is as long as the parts together plus n − 1 separators. |
| Text.JoinConcat | src/app/compositions/page.js:144-147 | Joining two non-empty runs of parts equals joining each and putting one separator at the seam. |
| Text.DecimalRoundTrip | src/app/compositions/page.js:139 | Reading back the digits of a rendered natural number gives the number. |
| Text.IntToDecimalInjective | src/app/compositions/page.js:139 | Two integers with the same decimal rendering are equal. |
| Entities.IdLabel | src/app/compositions/page.js:139 | The fallback label is "ID: " followed by the id's decimal rendering. |
| Entities.IdLabelInjective | src/app/compositions/page.js:146 | Distinct missing ids get distinct `ID: n` labels. |
| Entities.FormComplete | src/app/personas/page.js:31 | The save gate `!name \|\| !content` (also src/app/fragments/page.js:28) lets a form through exactly when both fields are non-empty. |
| Entities.FailureMessage | src/app/compositions/page.js:80 | The message is the backend's `detail` when it is present and non-empty, else the fallback (`err.detail \|\| fallback`). |
| Entities.FindFirst | src/app/compositions/page.js:138 | `find` gives nothing exactly when no element passes; otherwise it gives the element at the first passing index. |
| Entities.Filter | src/app/compositions/page.js:264 | `filter` keeps exactly the passing elements and never grows the list. |
| Entities.FilterMultiset | src/app/compositions/page.js:264 | Each passing element survives as often as it occurs, and a failing one never does. |
| Entities.FilterIsSubsequence | src/app/compositions/page.js:264 | The surviving elements keep their original relative order. |
| Entities.FilterCongruent | src/app/compositions/page.js:264 | Two tests that agree on every element filter identically. |
| Compositions.SelectionMatches | src/app/compositions/page.js:263 | Loose `==` between a persona id and the select's string value: the placeholder's "" matches exactly id 0, and a persona option's decimal rendering matches exactly the id it renders. |
| Compositions.SelectedPersona | src/app/compositions/page.js:263 | Nothing exactly when no persona loosely equals the selection; otherwise the persona at the first matching index. |
| Compositions.SelectedFragments | src/app/compositions/page.js:264 | The preview fragments are exactly the catalogue entries whose id is selected, and never more than the catalogue holds. |
| Compositions.FragmentText | src/app/compositions/page.js:272-275 | A fragment contributes its content to the joined prompt, and "" when the content is missing, as `join` renders it. |
| Compositions.PromptParts | src/app/compositions/page.js:270-273 | `promptParts` is the persona's content followed by one part per selected fragment, in order. |
| Compositions.LivePreview | src/app/compositions/page.js:262-286 | The placeholder is shown exactly when no loaded persona loosely equals the selected id. |
| Compositions.PreviewStartsWithPersona | src/app/compositions/page.js:263-281 | With a matching persona, its content begins the prompt, and the part count is 1 plus the number of selected catalogue fragments. |
| Compositions.SelectedFragmentsFromCatalogue | src/app/compositions/page.js:264 | The preview fragments are the catalogue entries whose id is selected, each as often as in the catalogue (repeated selection adds nothing), in catalogue order. |
| Compositions.PreviewIgnoresSelectionOrder | src/app/compositions/page.js:264 | Two selections with the same set of ids, whatever their order or repetitions, give the same preview. |
| Compositions.PreviewPersonaOnly | src/app/compositions/page.js:270-275 | With no catalogue fragment selected, the prompt is exactly the persona's content, with 1 part and no trailing separator. |
| Compositions.PreviewCharacterCount | src/app/compositions/page.js:275-281 | The character count is the sum of the part lengths plus 2 × (parts − 1). |
| Compositions.PreviewOfWholeCatalogue | src/app/compositions/page.js:263-281 | With the first persona selected and every catalogue id selected, the prompt joins the persona's content and the whole catalogue's contents in catalogue order, one part each. |
| Compositions.PreviewThreeParts | src/app/compositions/page.js:270-281 | Persona "A" with fragments "B" and "C" (clicked in reverse order) gives "A\n\nB\n\nC", 7 characters, 3 parts. |
| Compositions.PreviewTwoParts | src/app/compositions/page.js:270-281 | "Be fair." with "Be concise." gives "Be fair.\n\nBe concise.", 21 characters, 2 parts. |
| Compositions.SaveRequest | src/app/compositions/page.js:56-70 | A request is produced exactly when the name is non-empty and a persona is selected; it carries that name, persona id and fragment list. |
| Compositions.Toggled | src/app/compositions/page.js:128-135 | The toggled id is present afterwards exactly when it was absent before. A present id is removed everywhere, keeping the rest in order. An absent id is appended at the end. Other ids keep their multiplicity. |
| Compositions.ToggleTwiceRestores | src/app/compositions/page.js:128-135 | Toggling an absent id twice restores the original list. |
| Compositions.ToggleTwiceMovesToEnd | src/app/compositions/page.js:131-133 | Toggling a present id twice leaves all other ids in order and the id once, at the end. |
| Compositions.CompositionBuilder.constructor | src/app/compositions/page.js:11-17 | The builder starts with an empty name, no persona, no fragments, and is closed. |
| Compositions.CompositionBuilder.Open | src/app/compositions/page.js:160 | "Create New Composition" opens the builder and changes nothing else. |
| Compositions.CompositionBuilder.SetName | src/app/compositions/page.js:180-182 | The name input replaces only the name. |
| Compositions.CompositionBuilder.SelectPersona | src/app/compositions/page.js:192-194 | The persona select replaces only the selected persona. |
| Compositions.CompositionBuilder.ToggleFragment | src/app/compositions/page.js:128-135 | Only the fragment list changes, to its toggled value; name and persona are unchanged. |
| Compositions.CompositionBuilder.Cancel | src/app/compositions/page.js:247-250 | Cancel closes the builder and clears the form. |
| Compositions.CompositionBuilder.Save | src/app/compositions/page.js:55-86 | An incomplete form sends nothing and changes nothing. A success clears and closes the form. A refusal or thrown error keeps the form and reports `detail`, the fallback, or the error message. |
| Compositions.PersonaName | src/app/compositions/page.js:137-140 | The name of the first persona with that id, or `ID: n` when none has it. |
| Compositions.FragmentLabel | src/app/compositions/page.js:144-147 | The name of the first catalogue fragment with that id, or `ID: n` when none has it. |
| Compositions.FragmentLabels | src/app/compositions/page.js:144-147 | The `.map` gives one label per stored id, in stored order, each the `FragmentLabel` of that id. |
| Compositions.FragmentNames | src/app/compositions/page.js:142-148 | A null or empty id list shows "No fragments". |
| Compositions.FragmentNamesAppend | src/app/compositions/page.js:144-147 | One label per stored id in stored order: appending an id appends ", " and its label. |
| Compositions.FragmentNamesSingle | src/app/compositions/page.js:144-147 | A single stored id shows just its label. |
| Personas.LexCompare | src/app/personas/page.js:28 | The name comparison is zero exactly for equal names and lies in −1..1. |
| Personas.LexCompareAntisymmetric | src/app/personas/page.js:28 | Swapping the names negates the comparison. |
| Personas.LexCompareTransitive | src/app/personas/page.js:28 | "Not after" by name is transitive. |
| Personas.Compare | src/app/personas/page.js:27-28 | The two comparators handed to `sort`: newest first lets `a` stay before `b` exactly when its id is not smaller, with 0 for equal ids; by name gives −1..1, with 0 exactly for equal names. |
| Personas.CompareAntisymmetric | src/app/personas/page.js:27-28 | Both sort comparators are antisymmetric. |
| Personas.CompareTransitive | src/app/personas/page.js:27-28 | Both sort comparators are transitive on "may stay before". |
| Personas.InsertSorted | src/app/personas/page.js:27-28 | Inserting into a sorted list keeps it sorted. |
| Personas.SortBy | src/app/personas/page.js:27-28 | `sort(comparator)` returns a permutation of its input in comparator order. |
| Personas.UserPersonas | src/app/personas/page.js:27 | The user list is newest first and holds exactly the loaded personas that are not system personas. |
| Personas.SystemPersonas | src/app/personas/page.js:28 | The system list is ordered by name and holds exactly the loaded system personas. |
| Personas.UserPersonasSpec | src/app/personas/page.js:27 | The user list holds exactly the non-system personas, each as often as loaded, with ids non-increasing. |
| Personas.UserPersonasStrictlyNewestFirst | src/app/personas/page.js:27 | With unique ids, the user list is in strictly descending id order. |
| Personas.SystemPersonasSpec | src/app/personas/page.js:28 | The system list holds exactly the system personas, each as often as loaded, ordered by name. |
| Personas.PartitionIsPermutation | src/app/personas/page.js:27-28 | Each loaded persona is in exactly one list, and the two lists together are a permutation of what was loaded. |
| Personas.CardsOf | src/app/personas/page.js:128-193 | Card i is the i-th user persona with Delete; after them, card \|user\| + i is the i-th system persona without it. Every card is one of these. |
| Personas.PersonaCards | src/app/personas/page.js:128-193 | The page renders the user cards in newest-first order, each with Delete, then the system cards in name order, without it. |
| Personas.DeleteOfferedExactlyForUserPersonas | src/app/personas/page.js:155-190 | Delete is offered for a card exactly when its persona is not a system persona, and every loaded persona has a card. |
| Personas.ShowsEmptyState | src/app/personas/page.js:195-199 | The "No personas found" message is shown exactly when the page renders no persona card. |
| Personas.EmptyStateIffNothingLoaded | src/app/personas/page.js:195-199 | The "No personas found" message is shown exactly when no persona was loaded. |
| Personas.SavePersona | src/app/personas/page.js:30-56 | A request is sent exactly when name and content are both non-empty. A success clears the form. A failure keeps the form and reports `detail`, "Failed to save persona", or the error message. |
| Personas.DeletePersona | src/app/personas/page.js:58-78 | Nothing happens without confirmation; otherwise the success or failure alert, with the `detail` fallback. |
| Fragments.DisplayedLength | src/app/fragments/page.js:152 | The shown length is the content's length, or 0 when the content is missing. |
| Fragments.FragmentCards | src/app/fragments/page.js:138-167 | One card per fragment in load order, with its displayed length, deletable exactly when the fragment is not a system fragment. |
| Fragments.DeleteOnlyForUserFragments | src/app/fragments/page.js:155-165 | A card has Delete exactly when its fragment is not a system fragment. A missing content shows 0. There are as many Delete buttons as non-system fragments. |
| Fragments.ShowsEmptyState | src/app/fragments/page.js:132-135 | The "No fragments yet" message is shown exactly when there is no fragment card to show. |
| Fragments.SaveFragment | src/app/fragments/page.js:27-52 | A request is sent exactly when name and content are both non-empty. A success clears the form. A refusal reports the fixed "Failed to save fragment", whatever the backend said. |
| Fragments.DeleteFragment | src/app/fragments/page.js:54-82 | Nothing happens without confirmation. A refusal reports the backend's `detail`, or "Failed to delete fragment" when it is missing, empty or unparseable. |
| Landing.Truthy | src/app/page.js:74 | The banner's truthiness test fails only for the empty string; every array, `[]` included, passes. |
| Landing.Clears | src/app/page.js:24 | The clearing branch is taken exactly for an empty list or a `{detail: "Not Found"}` body. |
| Landing.Banner | src/app/page.js:74-78 | The initial "" shows "No active composition"; a name shows the green dot and the name; `[]` shows the green dot alone. |
| Landing.AfterLoad | src/app/page.js:16-39 | A failed request changes nothing. An empty list or "Not Found" clears both fields. Otherwise the body is stored, and the active value either stays or is the name of a composition in the list flagged active. |
| Landing.AfterSwitch | src/app/page.js:41-62 | A refused or failed switch changes nothing. An accepted one shows the requested name, unless the reload clears the list or names a composition flagged active. A failed reload leaves the requested name. |
| Landing.SwitchNotice | src/app/page.js:54-59 | Success announces the requested name; every failure alert starts with the red cross. |
| Landing.BannerNoActiveIff | src/app/page.js:74-77 | "No active composition" is shown exactly when the active value is the empty string. |
| Landing.ClearedIsNotInitial | src/app/page.js:24-29 | After an empty load the list is empty and the active value is `[]`, not the initial `""`. The banner then shows a green dot with no name instead of "No active composition". |
| Landing.NotFoundClearsLikeEmpty | src/app/page.js:24 | A `{detail: "Not Found"}` body clears the state exactly as an empty list does. |
| Landing.LoadTakesFirstActive | src/app/page.js:31-34 | A non-empty list replaces the stored list, and the first composition flagged active names the active value. |
| Landing.LoadWithoutActiveKeepsName | src/app/page.js:31-35 | A non-empty list with nothing flagged active replaces the list and leaves the active value unchanged. |
| Landing.LoadErrorKeepsActive | src/app/page.js:31-38 | A failed request changes nothing, and an error body other than "Not Found" leaves the active value unchanged. |
| Landing.LoadIdempotent | src/app/page.js:16-39 | Loading the same response twice has the effect of loading it once. |
| Landing.SwitchShowsRequestedName | src/app/page.js:51-53 | An accepted switch shows the requested name, unless the reload clears the list or flags a composition active. |
| Landing.FailedSwitchKeepsState | src/app/page.js:51-59 | A refused or failed switch leaves both fields unchanged and does not report success. |
| Landing.HomePage.constructor | src/app/page.js:8-9 | The page starts with no compositions and the active value `""`. |
| Landing.HomePage.LoadCompositions | src/app/page.js:16-39 | The fields after `loadCompositions` are `AfterLoad` of the fields before. |
| Landing.HomePage.SwitchComposition | src/app/page.js:41-62 | The fields after `switchComposition` are `AfterSwitch` of the fields before, and the alert names the outcome. |

## Left out

- Network and dialogs. Every `fetch`, `response.json()`, `alert`, `confirm` and `console` call is left out. The loaded lists, the backend's replies and the user's confirmation are parameters. The alerts are returned as strings.
- Rendering. React hooks, JSX, CSS modules, navigation links and the `loading` flags are left out. Only what decides which text or button appears is modelled.
- src/app/test-article/page.js, src/app/components/HeaderNav.js and src/app/layout.js are not part of this model. They are I/O, presentation and static navigation.
- Personas.LexCompare: models `localeCompare` as plain lexicographic comparison by code point, because locale collation is library behaviour.
- Personas.SortBy: does not state that the sort is stable. The insertion it uses keeps tied personas in load order, as `Array.prototype.sort` does, but only sortedness and permutation are proved.
- Compositions.LivePreview: counts Unicode scalar values, where JavaScript's `length` counts UTF-16 code units. The two differ for characters outside the Basic Multilingual Plane.
- Compositions.LivePreview: a catalogue fragment with missing `content` makes the builder's fragment grid throw while rendering (`fragment.content.substring(0, 80)`, src/app/compositions/page.js:231), so the page never shows a preview. The model instead renders that fragment as an empty part, as `join` would.
- Fragments.DisplayedLength: counts Unicode scalar values, where `content?.length` (src/app/fragments/page.js:152) counts UTF-16 code units.
- Entities.IdLabel: ids are unbounded integers. In the source they are JavaScript numbers: ids above 2^53 lose precision when parsed, and `${id}` (src/app/compositions/page.js:139, 146) writes magnitudes of 1e21 and above in exponent form, where `Text.IntToDecimal` always gives plain digits.
- The persona select's value is modelled as an optional integer. Its `parseInt` on save (src/app/compositions/page.js:68) and the string form of the value are left out.
- `created_at` and `toLocaleDateString` are left out; they are display only.
- Unparseable bodies. On the compositions and personas pages, an error body that is not JSON throws the parser's own error. It is modelled as `Unreachable` with that message.
- The compositions page's `activateComposition` and `deleteComposition` (src/app/compositions/page.js:88-126) are not modelled. They are request glue with the same `detail`-or-fallback rule as `FailureMessage`. The list's Activate/Delete gating on `is_active` (329-347) is also not modelled.
- The list loaders on the compositions, personas and fragments pages only store the loaded data or log an error. Their results are this model's inputs.
- The URL that `switchComposition` requests (src/app/page.js:45) is not modelled, only the state change on each outcome. A landing-page body that is neither an array nor an object (such as `null`) is not modelled either.

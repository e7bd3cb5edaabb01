/** The persona manager page: the split of the loaded personas into the
    user's own (newest first) and the built-in ones (by name), the cards and
    their delete buttons, the empty state, and the save and delete flows. */
module Personas {
  import opened Entities

  // ---------------------------------------------------------------------
  // The two comparators handed to `Array.prototype.sort`

  /** Lexicographic comparison of names by code point: the model of `localeCompare`. */
  function LexCompare(a: string, b: string): (c: int)
    ensures -1 <= c <= 1
    ensures c == 0 <==> a == b
  {
    if a == [] && b == [] then 0
    else if a == [] then -1
    else if b == [] then 1
    else if a[0] < b[0] then -1
    else if a[0] > b[0] then 1
    else LexCompare(a[1..], b[1..])
  }

  lemma {:induction false} LexCompareAntisymmetric(a: string, b: string)
    ensures LexCompare(b, a) == -LexCompare(a, b)
  {
    if a != [] && b != [] && a[0] == b[0] {
      LexCompareAntisymmetric(a[1..], b[1..]);
    }
  }

  lemma {:induction false} LexCompareTransitive(a: string, b: string, c: string)
    requires LexCompare(a, b) <= 0 && LexCompare(b, c) <= 0
    ensures LexCompare(a, c) <= 0
  {
    if a != [] && b != [] && c != [] && a[0] == b[0] == c[0] {
      LexCompareTransitive(a[1..], b[1..], c[1..]);
    }
  }

  /** The two orders the page sorts by. */
  datatype Order = NewestFirst | ByName

  /** The comparator: `(a, b) => b.id - a.id` and `(a, b) => a.name.localeCompare(b.name)`;
      a non-positive result lets `a` stay before `b`. */
  function Compare(o: Order, a: Persona, b: Persona): (c: int)
    ensures o.NewestFirst? ==> (c <= 0 <==> a.id >= b.id) && (c == 0 <==> a.id == b.id)
    ensures o.ByName? ==> -1 <= c <= 1 && (c == 0 <==> a.name == b.name)
  {
    match o
    case NewestFirst => b.id - a.id
    case ByName => LexCompare(a.name, b.name)
  }

  /** Both comparators are consistent: swapping the arguments negates the result... */
  lemma CompareAntisymmetric(o: Order, a: Persona, b: Persona)
    ensures Compare(o, b, a) == -Compare(o, a, b)
  {
    if o == ByName {
      LexCompareAntisymmetric(a.name, b.name);
    }
  }

  /** ...and "may stay before" is transitive. */
  lemma CompareTransitive(o: Order, a: Persona, b: Persona, c: Persona)
    requires Compare(o, a, b) <= 0 && Compare(o, b, c) <= 0
    ensures Compare(o, a, c) <= 0
  {
    if o == ByName {
      LexCompareTransitive(a.name, b.name, c.name);
    }
  }

  predicate Sorted(o: Order, s: seq<Persona>)
  {
    forall i, j :: 0 <= i < j < |s| ==> Compare(o, s[i], s[j]) <= 0
  }

  // ---------------------------------------------------------------------
  // A stable sort by a comparator

  /** Inserts `x` before the first element it must precede, after every element it ties with. */
  function Insert(o: Order, x: Persona, s: seq<Persona>): (r: seq<Persona>)
    ensures multiset(r) == multiset(s) + multiset{x}
  {
    if s == [] then [x]
    else if Compare(o, x, s[0]) < 0 then [x] + s
    else
      assert s == [s[0]] + s[1..];
      [s[0]] + Insert(o, x, s[1..])
  }

  lemma {:induction false} InsertSorted(o: Order, x: Persona, s: seq<Persona>)
    requires Sorted(o, s)
    ensures Sorted(o, Insert(o, x, s))
  {
    if s == [] {
    } else if Compare(o, x, s[0]) < 0 {
      forall j | 0 <= j < |s| ensures Compare(o, x, s[j]) <= 0 {
        if j > 0 {
          CompareTransitive(o, x, s[0], s[j]);
        }
      }
      PrependSorted(o, x, s);
    } else {
      InsertSorted(o, x, s[1..]);
      HeadPrecedesInsert(o, x, s);
      PrependSorted(o, s[0], Insert(o, x, s[1..]));
    }
  }

  /** Putting in front an element that may stay before every element keeps a list sorted. */
  lemma PrependSorted(o: Order, y: Persona, t: seq<Persona>)
    requires Sorted(o, t)
    requires forall j :: 0 <= j < |t| ==> Compare(o, y, t[j]) <= 0
    ensures Sorted(o, [y] + t)
  {
    var r := [y] + t;
    forall i, j | 0 <= i < j < |r| ensures Compare(o, r[i], r[j]) <= 0 {
      assert r[j] == t[j - 1];
      if i > 0 {
        assert r[i] == t[i - 1];
      }
    }
  }

  /** When `x` does not go first, the head of `s` may stay before everything in the rest after insertion. */
  lemma HeadPrecedesInsert(o: Order, x: Persona, s: seq<Persona>)
    requires Sorted(o, s) && s != [] && Compare(o, x, s[0]) >= 0
    ensures forall j :: 0 <= j < |Insert(o, x, s[1..])| ==> Compare(o, s[0], Insert(o, x, s[1..])[j]) <= 0
  {
    var t := Insert(o, x, s[1..]);
    CompareAntisymmetric(o, x, s[0]);
    forall j | 0 <= j < |t| ensures Compare(o, s[0], t[j]) <= 0 {
      assert t[j] in multiset(t);
      if t[j] != x {
        assert t[j] in multiset(s[1..]);
        var k :| 0 <= k < |s[1..]| && s[1..][k] == t[j];
        assert s[k + 1] == t[j];
      }
    }
  }

  /** `s.sort(comparator)`: a permutation of `s` in comparator order. */
  function SortBy(o: Order, s: seq<Persona>): (r: seq<Persona>)
    ensures multiset(r) == multiset(s)
    ensures Sorted(o, r)
  {
    if s == [] then []
    else
      var init := s[..|s| - 1];
      var sorted := SortBy(o, init);
      InsertSorted(o, s[|s| - 1], sorted);
      assert s == init + [s[|s| - 1]];
      Insert(o, s[|s| - 1], sorted)
  }

  // ---------------------------------------------------------------------
  // The two lists on the page

  /** `userPersonas`: the personas not flagged as system, newest (largest id) first. */
  function UserPersonas(ps: seq<Persona>): (r: seq<Persona>)
    ensures Sorted(NewestFirst, r)
    ensures forall p :: p in r <==> p in ps && !p.is_system
  {
    var kept := Filter(ps, (p: Persona) => !p.is_system);
    var r := SortBy(NewestFirst, kept);
    SameElements(r, kept);
    r
  }

  /** `systemPersonas`: the personas flagged as system, by name. */
  function SystemPersonas(ps: seq<Persona>): (r: seq<Persona>)
    ensures Sorted(ByName, r)
    ensures forall p :: p in r <==> p in ps && p.is_system
  {
    var kept := Filter(ps, (p: Persona) => p.is_system);
    var r := SortBy(ByName, kept);
    SameElements(r, kept);
    r
  }

  /** Two lists with the same multiset hold the same elements. */
  lemma SameElements(a: seq<Persona>, b: seq<Persona>)
    requires multiset(a) == multiset(b)
    ensures forall x :: x in a <==> x in b
  {
    forall x ensures x in a <==> x in b {
      assert x in a <==> x in multiset(a);
      assert x in b <==> x in multiset(b);
    }
  }

  /** The user list holds exactly the loaded non-system personas, each as often
      as loaded, in non-increasing id order. */
  lemma UserPersonasSpec(ps: seq<Persona>)
    ensures forall p :: multiset(UserPersonas(ps))[p] == if p.is_system then 0 else multiset(ps)[p]
    ensures forall i, j :: 0 <= i < j < |UserPersonas(ps)| ==> UserPersonas(ps)[i].id >= UserPersonas(ps)[j].id
  {
    var keep := (p: Persona) => !p.is_system;
    var f := Filter(ps, keep);
    FilterMultiset(ps, keep);
    var u := SortBy(NewestFirst, f);
    assert u == UserPersonas(ps);
    forall p: Persona ensures multiset(u)[p] == if p.is_system then 0 else multiset(ps)[p] {
      assert multiset(u)[p] == multiset(f)[p];
    }
    forall i, j | 0 <= i < j < |u| ensures u[i].id >= u[j].id {
      assert Compare(NewestFirst, u[i], u[j]) <= 0;
    }
  }

  /** The system list holds exactly the loaded system personas, each as often as
      loaded, ordered by name. */
  lemma SystemPersonasSpec(ps: seq<Persona>)
    ensures forall p :: multiset(SystemPersonas(ps))[p] == if p.is_system then multiset(ps)[p] else 0
    ensures forall i, j :: 0 <= i < j < |SystemPersonas(ps)| ==>
              LexCompare(SystemPersonas(ps)[i].name, SystemPersonas(ps)[j].name) <= 0
  {
    var keep := (p: Persona) => p.is_system;
    var f := Filter(ps, keep);
    FilterMultiset(ps, keep);
    var s := SortBy(ByName, f);
    assert s == SystemPersonas(ps);
    forall p: Persona ensures multiset(s)[p] == if p.is_system then multiset(ps)[p] else 0 {
      assert multiset(s)[p] == multiset(f)[p];
    }
    forall i, j | 0 <= i < j < |s| ensures LexCompare(s[i].name, s[j].name) <= 0 {
      assert Compare(ByName, s[i], s[j]) <= 0;
    }
  }

  /** Every loaded persona is in exactly one list, and together the lists are a
      permutation of what was loaded. */
  lemma PartitionIsPermutation(ps: seq<Persona>)
    ensures multiset(UserPersonas(ps) + SystemPersonas(ps)) == multiset(ps)
    ensures forall p :: p in ps ==> (p in UserPersonas(ps) <==> p !in SystemPersonas(ps))
  {
    UserPersonasSpec(ps);
    SystemPersonasSpec(ps);
    var both := UserPersonas(ps) + SystemPersonas(ps);
    assert multiset(both) == multiset(UserPersonas(ps)) + multiset(SystemPersonas(ps));
    forall p: Persona ensures multiset(both)[p] == multiset(ps)[p] {
    }
  }

  /** No two entries share an id (as the backend's ids are unique). */
  predicate UniqueIds(s: seq<Persona>)
  {
    forall i, j :: 0 <= i < j < |s| ==> s[i].id != s[j].id
  }

  lemma {:induction false} UniqueIdsAtMostOnce(s: seq<Persona>)
    requires UniqueIds(s)
    ensures forall x :: multiset(s)[x] <= 1
  {
    if s != [] {
      assert UniqueIds(s[1..]) by {
        forall i, j | 0 <= i < j < |s[1..]| ensures s[1..][i].id != s[1..][j].id {
          assert s[1..][i] == s[i + 1] && s[1..][j] == s[j + 1];
        }
      }
      UniqueIdsAtMostOnce(s[1..]);
      assert s[0] !in s[1..] by {
        forall k | 0 <= k < |s[1..]| ensures s[1..][k] != s[0] {
          assert s[1..][k] == s[k + 1];
        }
      }
      assert s == [s[0]] + s[1..];
      assert multiset(s) == multiset{s[0]} + multiset(s[1..]);
    }
  }

  lemma TwoPositions(t: seq<Persona>, i: nat, j: nat)
    requires i < j < |t| && t[i] == t[j]
    ensures multiset(t)[t[i]] >= 2
  {
    assert t == t[..j] + t[j..];
    assert t[i] in t[..j];
    assert t[j] == t[j..][0];
    assert multiset(t) == multiset(t[..j]) + multiset(t[j..]);
  }

  /** Any sub-multiset of a list with unique ids has unique ids. */
  lemma UniqueIdsOfPart(s: seq<Persona>, t: seq<Persona>)
    requires UniqueIds(s) && multiset(t) <= multiset(s)
    ensures UniqueIds(t)
  {
    UniqueIdsAtMostOnce(s);
    forall i, j | 0 <= i < j < |t| ensures t[i].id != t[j].id {
      if t[i] == t[j] {
        TwoPositions(t, i, j);
      } else {
        assert t[i] in multiset(t) && t[j] in multiset(t);
        var k :| 0 <= k < |s| && s[k] == t[i];
        var l :| 0 <= l < |s| && s[l] == t[j];
        assert k != l;
      }
    }
  }

  /** With unique ids the user list is strictly newest first. */
  lemma UserPersonasStrictlyNewestFirst(ps: seq<Persona>)
    requires UniqueIds(ps)
    ensures forall i, j :: 0 <= i < j < |UserPersonas(ps)| ==> UserPersonas(ps)[i].id > UserPersonas(ps)[j].id
  {
    UserPersonasSpec(ps);
    var u := UserPersonas(ps);
    assert multiset(u) <= multiset(ps) by {
      forall p: Persona ensures multiset(u)[p] <= multiset(ps)[p] {
      }
    }
    UniqueIdsOfPart(ps, u);
  }

  // ---------------------------------------------------------------------
  // What the page renders from the two lists

  /** A persona card; only cards with `deletable` carry a Delete button. */
  datatype PersonaCard = PersonaCard(persona: Persona, deletable: bool)

  /** The "Your Custom Personas" cards, each with Delete, then the "Default
      Ethical Frameworks" cards, without. */
  function PersonaCards(ps: seq<Persona>): (r: seq<PersonaCard>)
    ensures |r| == |UserPersonas(ps)| + |SystemPersonas(ps)|
    ensures forall i :: 0 <= i < |UserPersonas(ps)| ==> r[i] == PersonaCard(UserPersonas(ps)[i], true)
    ensures forall i :: 0 <= i < |SystemPersonas(ps)| ==>
              r[|UserPersonas(ps)| + i] == PersonaCard(SystemPersonas(ps)[i], false)
  {
    CardsOf(UserPersonas(ps), SystemPersonas(ps))
  }

  /** The user cards in `user` order, each with Delete, then the system cards in `system` order. */
  function CardsOf(user: seq<Persona>, system: seq<Persona>): (r: seq<PersonaCard>)
    ensures |r| == |user| + |system|
    ensures forall c :: c in r ==> (c.deletable && c.persona in user) || (!c.deletable && c.persona in system)
    ensures forall p :: p in user ==> PersonaCard(p, true) in r
    ensures forall p :: p in system ==> PersonaCard(p, false) in r
    ensures forall i :: 0 <= i < |user| ==> r[i] == PersonaCard(user[i], true)
    ensures forall i :: 0 <= i < |system| ==> r[|user| + i] == PersonaCard(system[i], false)
  {
    var r := Cards(user, true) + Cards(system, false);
    assert forall p :: p in user ==> PersonaCard(p, true) in r by {
      forall p | p in user ensures PersonaCard(p, true) in r {
        var k :| 0 <= k < |user| && user[k] == p;
        assert r[k] == PersonaCard(p, true);
      }
    }
    assert forall p :: p in system ==> PersonaCard(p, false) in r by {
      forall p | p in system ensures PersonaCard(p, false) in r {
        var k :| 0 <= k < |system| && system[k] == p;
        assert r[|user| + k] == PersonaCard(p, false);
      }
    }
    r
  }

  /** One card per persona of `ps`, in order, all with the same Delete flag. */
  function Cards(ps: seq<Persona>, deletable: bool): (r: seq<PersonaCard>)
    ensures |r| == |ps|
    ensures forall i :: 0 <= i < |ps| ==> r[i] == PersonaCard(ps[i], deletable)
  {
    if ps == [] then [] else [PersonaCard(ps[0], deletable)] + Cards(ps[1..], deletable)
  }

  /** Delete is offered for every user persona and for no system persona, and
      every loaded persona gets a card. */
  lemma DeleteOfferedExactlyForUserPersonas(ps: seq<Persona>)
    ensures forall c :: c in PersonaCards(ps) ==> (c.deletable <==> !c.persona.is_system)
    ensures forall p :: p in ps ==> PersonaCard(p, !p.is_system) in PersonaCards(ps)
  {
  }

  /** The "No personas found" message: shown when both lists are empty. */
  predicate ShowsEmptyState(ps: seq<Persona>)
    ensures ShowsEmptyState(ps) <==> PersonaCards(ps) == []
  {
    |UserPersonas(ps)| == 0 && |SystemPersonas(ps)| == 0
  }

  /** The empty state is shown exactly when nothing was loaded. */
  lemma EmptyStateIffNothingLoaded(ps: seq<Persona>)
    ensures ShowsEmptyState(ps) <==> ps == []
  {
    PartitionIsPermutation(ps);
    assert |UserPersonas(ps) + SystemPersonas(ps)| == |ps| by {
      assert |multiset(UserPersonas(ps) + SystemPersonas(ps))| == |multiset(ps)|;
    }
  }

  // ---------------------------------------------------------------------
  // Save and delete

  /** `savePersona`: an incomplete form sends nothing; a success clears the form;
      a failure keeps it and reports the backend's `detail` or a default. */
  function SavePersona(form: TextForm, reply: Reply): (r: FormOutcome)
    ensures r.sent <==> FormComplete(form)
    ensures !r.sent ==> r.form == form && r.notice == IncompleteFormNotice
    ensures r.sent && reply.Accepted? ==> r.form == TextForm("", "") && r.notice == "Ethical persona saved!"
    ensures r.sent && reply.Refused? ==>
              r.form == form && r.notice == "Error: " + FailureMessage(reply.detail, "Failed to save persona")
    ensures r.sent && reply.Unreachable? ==> r.form == form && r.notice == "Error: " + reply.message
  {
    if !FormComplete(form) then FormOutcome(false, form, IncompleteFormNotice)
    else match reply
      case Accepted => FormOutcome(true, TextForm("", ""), "Ethical persona saved!")
      case Refused(detail) => FormOutcome(true, form, "Error: " + FailureMessage(detail, "Failed to save persona"))
      case Unreachable(message) => FormOutcome(true, form, "Error: " + message)
  }

  /** `deletePersona`: nothing happens unless the user confirms; otherwise the alert. */
  function DeletePersona(confirmed: bool, reply: Reply): (notice: Option<string>)
    ensures notice.None? <==> !confirmed
    ensures confirmed && reply.Accepted? ==> notice == Some("Persona deleted successfully")
    ensures confirmed && reply.Refused? ==>
              notice == Some("Error: " + FailureMessage(reply.detail, "Failed to delete persona"))
    ensures confirmed && reply.Unreachable? ==> notice == Some("Error: " + reply.message)
  {
    if !confirmed then None
    else match reply
      case Accepted => Some("Persona deleted successfully")
      case Refused(detail) => Some("Error: " + FailureMessage(detail, "Failed to delete persona"))
      case Unreachable(message) => Some("Error: " + message)
  }
}

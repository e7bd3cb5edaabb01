/** The fragment manager page: the fragment cards (length, delete button),
    the empty state, and the save and delete flows. */
module Fragments {
  import opened Entities

  /** `fragment.content?.length || 0`: the content's length, 0 when it is missing. */
  function DisplayedLength(f: Fragment): (n: nat)
    ensures f.content.Some? ==> n == |f.content.value|
    ensures f.content.None? ==> n == 0
  {
    match f.content
    case Some(c) => |c|
    case None => 0
  }

  /** A fragment card: the fragment, its displayed length, and whether it has a Delete button. */
  datatype FragmentCard = FragmentCard(fragment: Fragment, length: nat, deletable: bool)

  /** One card per loaded fragment, in load order; only non-system fragments can be deleted. */
  function FragmentCards(fs: seq<Fragment>): (r: seq<FragmentCard>)
    ensures |r| == |fs|
    ensures forall i :: 0 <= i < |fs| ==> r[i].fragment == fs[i]
    ensures forall i :: 0 <= i < |fs| ==> (r[i].deletable <==> !fs[i].is_system)
    ensures forall i :: 0 <= i < |fs| ==> r[i].length == DisplayedLength(fs[i])
  {
    if fs == [] then []
    else [FragmentCard(fs[0], DisplayedLength(fs[0]), !fs[0].is_system)] + FragmentCards(fs[1..])
  }

  /** Exactly the non-system fragments are deletable, and each shows a length
      no longer than its content (0 when the content is missing). */
  lemma DeleteOnlyForUserFragments(fs: seq<Fragment>)
    ensures forall c :: c in FragmentCards(fs) ==> (c.deletable <==> !c.fragment.is_system)
    ensures forall c :: c in FragmentCards(fs) && c.fragment.content.None? ==> c.length == 0
    ensures |Filter(FragmentCards(fs), (c: FragmentCard) => c.deletable)|
            == |Filter(fs, (f: Fragment) => !f.is_system)|
  {
    var cards := FragmentCards(fs);
    forall c | c in cards ensures (c.deletable <==> !c.fragment.is_system)
                                && (c.fragment.content.None? ==> c.length == 0) {
      var k :| 0 <= k < |cards| && cards[k] == c;
    }
    DeletableCount(fs);
  }

  lemma {:induction false} DeletableCount(fs: seq<Fragment>)
    ensures |Filter(FragmentCards(fs), (c: FragmentCard) => c.deletable)|
            == |Filter(fs, (f: Fragment) => !f.is_system)|
  {
    if fs != [] {
      DeletableCount(fs[1..]);
      var cards := FragmentCards(fs);
      assert cards[1..] == FragmentCards(fs[1..]);
    }
  }

  /** The "No fragments yet" message (`fragments.length === 0`). It and the
      card grid exclude each other: it is shown exactly when there is no card. */
  predicate ShowsEmptyState(fs: seq<Fragment>)
    ensures ShowsEmptyState(fs) <==> FragmentCards(fs) == []
  {
    |fs| == 0
  }

  /** `saveFragment`: an incomplete form sends nothing; a success clears the form;
      any non-success status reports the same fixed message, whatever the backend said. */
  function SaveFragment(form: TextForm, reply: Reply): (r: FormOutcome)
    ensures r.sent <==> FormComplete(form)
    ensures !r.sent ==> r.form == form && r.notice == IncompleteFormNotice
    ensures r.sent && reply.Accepted? ==> r.form == TextForm("", "") && r.notice == "✅ Fragment saved!"
    ensures r.sent && reply.Refused? ==> r.form == form && r.notice == "❌ Error: Failed to save fragment"
    ensures r.sent && reply.Unreachable? ==> r.form == form && r.notice == "❌ Error: " + reply.message
  {
    if !FormComplete(form) then FormOutcome(false, form, IncompleteFormNotice)
    else match reply
      case Accepted => FormOutcome(true, TextForm("", ""), "✅ Fragment saved!")
      case Refused(_) => FormOutcome(true, form, "❌ Error: Failed to save fragment")
      case Unreachable(message) => FormOutcome(true, form, "❌ Error: " + message)
  }

  /** The message reported for a refused delete without a usable `detail`. */
  const DeleteFallback: string := "Failed to delete fragment"

  /** `deleteFragment`: nothing happens unless confirmed; a refusal reports the
      backend's `detail`, or "Failed to delete fragment" when the body has none
      or is not JSON. */
  function DeleteFragment(confirmed: bool, reply: Reply): (notice: Option<string>)
    ensures notice.None? <==> !confirmed
    ensures confirmed && reply.Accepted? ==> notice == Some("Fragment deleted successfully")
    ensures confirmed && reply.Refused? && reply.detail.Some? && reply.detail.value != "" ==>
              notice == Some("Error: " + reply.detail.value)
    ensures confirmed && reply.Refused? && (reply.detail.None? || reply.detail.value == "") ==>
              notice == Some("Error: " + DeleteFallback)
    ensures confirmed && reply.Unreachable? ==> notice == Some("Error: " + reply.message)
  {
    if !confirmed then None
    else match reply
      case Accepted => Some("Fragment deleted successfully")
      case Refused(detail) => Some("Error: " + FailureMessage(detail, DeleteFallback))
      case Unreachable(message) => Some("Error: " + message)
  }
}

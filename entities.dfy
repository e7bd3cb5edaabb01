/** The records the console loads from its backend, the replies it gets back,
    and the two list operations every page uses on them (`find` and `filter`). */
module Entities {
  import Text

  datatype Option<T> = None | Some(value: T)

  /** A reusable block of persona instructions. */
  datatype Persona = Persona(id: int, name: string, content: string, is_system: bool)

  /** A modifier fragment; its `content` may be missing in what the backend sends. */
  datatype Fragment = Fragment(id: int, name: string, content: Option<string>, is_system: bool)

  /** A named pairing of one persona with fragment ids; `fragment_ids` may be null. */
  datatype Composition = Composition(
    id: int, name: string, ethical_persona_id: int,
    fragment_ids: Option<seq<int>>, is_active: bool)

  /** The name/content form of the persona and fragment pages. */
  datatype TextForm = TextForm(name: string, content: string)

  /** The save gate shared by the persona and fragment forms: `!name || !content` rejects. */
  predicate FormComplete(form: TextForm)
    ensures FormComplete(form) <==> |form.name| > 0 && |form.content| > 0
  {
    form.name != "" && form.content != ""
  }

  /** What submitting a name/content form leads to: whether a request was sent,
      the form afterwards, and the alert shown. */
  datatype FormOutcome = FormOutcome(sent: bool, form: TextForm, notice: string)

  /** The alert shown when a name/content form is submitted incomplete. */
  const IncompleteFormNotice: string := "Please fill in both name and content"

  /** What a write request (POST/PUT/DELETE) ends in: success, a non-success
      status whose body may carry a `detail` string, or a thrown error. */
  datatype Reply = Accepted | Refused(detail: Option<string>) | Unreachable(message: string)

  /** `err.detail || fallback`: the backend's message unless it is missing or empty. */
  function FailureMessage(detail: Option<string>, fallback: string): (m: string)
    ensures detail.Some? && detail.value != "" ==> m == detail.value
    ensures detail.None? || detail.value == "" ==> m == fallback
  {
    if detail.Some? && detail.value != "" then detail.value else fallback
  }

  /** `ID: ${id}`, the label shown for an id that resolves to nothing. */
  function IdLabel(id: int): (l: string)
    ensures |l| > 4 && l[..4] == "ID: " && l[4..] == Text.IntToDecimal(id)
  {
    "ID: " + Text.IntToDecimal(id)
  }

  /** Two missing ids get the same label only if they are the same id. */
  lemma IdLabelInjective(a: int, b: int)
    requires IdLabel(a) == IdLabel(b)
    ensures a == b
  {
    assert IdLabel(a)[4..] == IdLabel(b)[4..];
    Text.IntToDecimalInjective(a, b);
  }

  // ---------------------------------------------------------------------
  // Array.prototype.find and Array.prototype.filter

  /** `s.find(test)`: the first element that passes, if any. */
  function FindFirst<T>(s: seq<T>, test: T -> bool): (r: Option<T>)
    ensures r.None? <==> forall i :: 0 <= i < |s| ==> !test(s[i])
    ensures r.Some? ==> exists k :: 0 <= k < |s| && s[k] == r.value && test(s[k])
                                    && forall j :: 0 <= j < k ==> !test(s[j])
  {
    if s == [] then None
    else if test(s[0]) then Some(s[0])
    else
      var r := FindFirst(s[1..], test);
      assert r.Some? ==> exists k :: 0 <= k < |s| && s[k] == r.value && test(s[k])
                                      && forall j :: 0 <= j < k ==> !test(s[j]) by {
        if r.Some? {
          var k :| 0 <= k < |s| - 1 && s[1..][k] == r.value && test(s[1..][k])
                   && forall j :: 0 <= j < k ==> !test(s[1..][j]);
          assert s[k + 1] == r.value;
          assert forall j :: 0 <= j < k + 1 ==> !test(s[j]) by {
            forall j | 0 <= j < k + 1 ensures !test(s[j]) {
              if j > 0 { assert s[j] == s[1..][j - 1]; }
            }
          }
        }
      }
      r
  }

  /** The first element that passes is the one at the first passing index. */
  lemma FindFirstAt<T>(s: seq<T>, test: T -> bool, k: nat)
    requires k < |s| && test(s[k])
    requires forall j :: 0 <= j < k ==> !test(s[j])
    ensures FindFirst(s, test) == Some(s[k])
  {
    var r := FindFirst(s, test);
    var k' :| 0 <= k' < |s| && s[k'] == r.value && test(s[k'])
              && forall j :: 0 <= j < k' ==> !test(s[j]);
    assert k' == k;
  }

  /** `s.filter(keep)`: each element that passes, as often as it occurs, none other. */
  function Filter<T(!new)>(s: seq<T>, keep: T -> bool): (r: seq<T>)
    ensures forall x :: x in r <==> x in s && keep(x)
    ensures |r| <= |s|
  {
    if s == [] then []
    else (if keep(s[0]) then [s[0]] else []) + Filter(s[1..], keep)
  }

  /** `filter` keeps every passing element exactly as often as it occurs:
      duplicates in the input stay, and nothing is duplicated. */
  lemma {:induction false} FilterMultiset<T(!new)>(s: seq<T>, keep: T -> bool)
    ensures forall x :: multiset(Filter(s, keep))[x] == if keep(x) then multiset(s)[x] else 0
  {
    if s != [] {
      FilterMultiset(s[1..], keep);
      assert s == [s[0]] + s[1..];
      assert multiset(s) == multiset{s[0]} + multiset(s[1..]);
    }
  }

  /** `r` can be obtained from `s` by deleting elements: its elements keep their order. */
  predicate Subsequence<T(==)>(r: seq<T>, s: seq<T>)
    decreases |s|
  {
    r == [] ||
    (s != [] && ((r[0] == s[0] && Subsequence(r[1..], s[1..])) || Subsequence(r, s[1..])))
  }

  /** `filter` keeps the surviving elements in their original order. */
  lemma {:induction false} FilterIsSubsequence<T(!new)>(s: seq<T>, keep: T -> bool)
    ensures Subsequence(Filter(s, keep), s)
  {
    if s != [] {
      FilterIsSubsequence(s[1..], keep);
      var rest := Filter(s[1..], keep);
      if keep(s[0]) {
        assert Filter(s, keep) == [s[0]] + rest;
        assert Filter(s, keep)[1..] == rest;
      } else {
        assert Filter(s, keep) == rest;
      }
    }
  }

  /** Two tests that agree on every element of `s` filter it identically. */
  lemma {:induction false} FilterCongruent<T(!new)>(s: seq<T>, k1: T -> bool, k2: T -> bool)
    requires forall x :: x in s ==> k1(x) == k2(x)
    ensures Filter(s, k1) == Filter(s, k2)
  {
    if s != [] {
      FilterCongruent(s[1..], k1, k2);
    }
  }

  /** Filtering distributes over concatenation. */
  lemma {:induction false} FilterConcat<T(!new)>(a: seq<T>, b: seq<T>, keep: T -> bool)
    ensures Filter(a + b, keep) == Filter(a, keep) + Filter(b, keep)
  {
    if a == [] {
      assert a + b == b;
    } else {
      var head := if keep(a[0]) then [a[0]] else [];
      assert a + b == [a[0]] + (a[1..] + b);
      calc {
        Filter(a + b, keep);
        { FilterCons(a[0], a[1..] + b, keep); }
        head + Filter(a[1..] + b, keep);
        { FilterConcat(a[1..], b, keep); }
        head + (Filter(a[1..], keep) + Filter(b, keep));
        (head + Filter(a[1..], keep)) + Filter(b, keep);
        { assert a == [a[0]] + a[1..]; FilterCons(a[0], a[1..], keep); }
        Filter(a, keep) + Filter(b, keep);
      }
    }
  }

  /** One step of `filter`: the head survives exactly when it passes. */
  lemma FilterCons<T(!new)>(x: T, s: seq<T>, keep: T -> bool)
    ensures Filter([x] + s, keep) == (if keep(x) then [x] else []) + Filter(s, keep)
  {
    assert ([x] + s)[1..] == s;
  }

  /** A test every element passes leaves the sequence as it is. */
  lemma {:induction false} FilterKeepsAll<T(!new)>(s: seq<T>, keep: T -> bool)
    requires forall i :: 0 <= i < |s| ==> keep(s[i])
    ensures Filter(s, keep) == s
  {
    if s != [] {
      FilterKeepsAll(s[1..], keep);
    }
  }

  /** A test no element passes leaves nothing. */
  lemma {:induction false} FilterKeepsNone<T(!new)>(s: seq<T>, keep: T -> bool)
    requires forall i :: 0 <= i < |s| ==> !keep(s[i])
    ensures Filter(s, keep) == []
  {
    if s != [] {
      FilterKeepsNone(s[1..], keep);
    }
  }
}

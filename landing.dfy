/** The landing page: the loaded composition list and the "Currently Active"
    banner, set by `loadCompositions` on mount. The page also defines a
    `switchComposition` handler that nothing on the page calls; it is modelled
    as well. */
module Landing {
  import opened Entities

  /** The value held in `activeComposition`: a string, or the empty array `[]`
      that an empty load stores. */
  datatype ActiveValue = Str(s: string) | EmptyArray

  /** JavaScript truthiness of that value: every array is truthy, a string when non-empty. */
  predicate Truthy(v: ActiveValue)
    ensures Truthy(v) <==> v != Str("")
  {
    v.EmptyArray? || v.s != ""
  }

  /** What `response.json()` produced for the composition list: an array, or an
      error object that may carry a `detail` string. */
  datatype Payload = Items(items: seq<Composition>) | ErrorObject(detail: Option<string>)

  /** The outcome of the list request: a parsed body, or a thrown fetch/parse error. */
  datatype LoadResponse = Received(payload: Payload) | LoadFailed

  /** The outcome of the switch request. */
  datatype SwitchReply = Switched | SwitchRefused | SwitchUnreachable(message: string)

  /** The page's two state fields. */
  datatype HomeState = HomeState(compositions: Payload, active: ActiveValue)

  /** The state on mount: no compositions, active name "". */
  const Initial: HomeState := HomeState(Items([]), Str(""))

  /** `data.length === 0 || data.detail === "Not Found"`. */
  predicate Clears(p: Payload)
    ensures Clears(p) <==> p == Items([]) || p == ErrorObject(Some("Not Found"))
  {
    (p.Items? && p.items == []) || (p.ErrorObject? && p.detail == Some("Not Found"))
  }

  /** `loadCompositions`: a failed request changes nothing; an empty list or a
      "Not Found" error clears both fields (the active value to `[]`); anything
      else is stored as the list, and the name of its first active composition,
      if any, becomes the active value. An error object other than "Not Found"
      is stored too, after which `data.find` throws and the active value stays. */
  function AfterLoad(h: HomeState, resp: LoadResponse): (r: HomeState)
    ensures resp.LoadFailed? ==> r == h
    ensures resp.Received? && Clears(resp.payload) ==> r == HomeState(Items([]), EmptyArray)
    ensures resp.Received? && !Clears(resp.payload) ==> r.compositions == resp.payload
    ensures r.active == h.active || r.active == EmptyArray
            || (resp.Received? && resp.payload.Items?
                && exists c :: c in resp.payload.items && c.is_active && r.active == Str(c.name))
  {
    match resp
    case LoadFailed => h
    case Received(p) =>
      if Clears(p) then HomeState(Items([]), EmptyArray)
      else if p.ErrorObject? then HomeState(p, h.active)
      else
        match FindFirst(p.items, (c: Composition) => c.is_active)
        case Some(c) => HomeState(p, Str(c.name))
        case None => HomeState(p, h.active)
  }

  /** `switchComposition`: only an accepted switch changes anything. It sets the
      active value to the requested name, then reloads the list. */
  function AfterSwitch(h: HomeState, name: string, reply: SwitchReply, reload: LoadResponse): (r: HomeState)
    ensures !reply.Switched? ==> r == h
    ensures reply.Switched? && reload.LoadFailed? ==> r == HomeState(h.compositions, Str(name))
    ensures reply.Switched? ==>
              r.active == Str(name) || r.active == EmptyArray
              || (reload.Received? && reload.payload.Items?
                  && exists c :: c in reload.payload.items && c.is_active && r.active == Str(c.name))
  {
    if reply.Switched? then AfterLoad(HomeState(h.compositions, Str(name)), reload) else h
  }

  /** The alert `switchComposition` ends with. */
  function SwitchNotice(name: string, reply: SwitchReply): (r: string)
    ensures reply.Switched? ==> r == "✅ Switched to: " + name
    ensures !reply.Switched? ==> |r| > 0 && r[0] == '❌'
  {
    match reply
    case Switched => "✅ Switched to: " + name
    case SwitchRefused => "❌ Error: Failed to switch composition"
    case SwitchUnreachable(message) => "❌ Error: " + message
  }

  const NoActiveBanner: string := "⚪ No active composition"

  /** The "Currently Active" card: the value after a green dot when it is truthy
      (an array renders as nothing), the "No active composition" line otherwise. */
  function Banner(v: ActiveValue): (r: string)
    ensures v == Str("") ==> r == NoActiveBanner
    ensures v.Str? && v.s != "" ==> r == "🟢 " + v.s
    ensures v.EmptyArray? ==> r == "🟢 "
  {
    if Truthy(v) then "🟢 " + (if v.Str? then v.s else "") else NoActiveBanner
  }

  /** The "No active composition" line appears exactly for the empty string. */
  lemma BannerNoActiveIff(v: ActiveValue)
    ensures Banner(v) == NoActiveBanner <==> v == Str("")
  {
    if Truthy(v) {
      assert Banner(v)[0] == '🟢' != NoActiveBanner[0];
    }
  }

  /** An empty load does not bring back the initial state: the active value
      becomes `[]`, which is truthy, so the banner shows a green dot with no
      name where the initial state shows "No active composition". */
  lemma ClearedIsNotInitial(h: HomeState)
    ensures var r := AfterLoad(h, Received(Items([])));
            && r.compositions == Items([])
            && r.active != Initial.active
            && Banner(Initial.active) == NoActiveBanner
            && Banner(r.active) == "🟢 "
  {
  }

  /** A "Not Found" error clears exactly as an empty list does. */
  lemma NotFoundClearsLikeEmpty(h: HomeState)
    ensures AfterLoad(h, Received(ErrorObject(Some("Not Found")))) == AfterLoad(h, Received(Items([])))
  {
  }

  /** A non-empty list replaces the stored one, and the first composition flagged
      active names the active value. */
  lemma LoadTakesFirstActive(h: HomeState, items: seq<Composition>, k: nat)
    requires k < |items| && items[k].is_active
    requires forall j :: 0 <= j < k ==> !items[j].is_active
    ensures AfterLoad(h, Received(Items(items))) == HomeState(Items(items), Str(items[k].name))
  {
    FindFirstAt(items, (c: Composition) => c.is_active, k);
  }

  /** A non-empty list with no active composition replaces the stored list and
      leaves the previously shown active value as it was. */
  lemma LoadWithoutActiveKeepsName(h: HomeState, items: seq<Composition>)
    requires items != []
    requires forall j :: 0 <= j < |items| ==> !items[j].is_active
    ensures AfterLoad(h, Received(Items(items))) == HomeState(Items(items), h.active)
  {
  }

  /** A failed request, and an error object other than "Not Found", never touch the active value. */
  lemma LoadErrorKeepsActive(h: HomeState, detail: Option<string>)
    requires detail != Some("Not Found")
    ensures AfterLoad(h, LoadFailed) == h
    ensures AfterLoad(h, Received(ErrorObject(detail))).active == h.active
  {
  }

  /** Loading the same response twice is the same as loading it once. */
  lemma LoadIdempotent(h: HomeState, resp: LoadResponse)
    ensures AfterLoad(AfterLoad(h, resp), resp) == AfterLoad(h, resp)
  {
    if resp.Received? && !Clears(resp.payload) && resp.payload.Items? {
      var found := FindFirst(resp.payload.items, (c: Composition) => c.is_active);
      assert AfterLoad(AfterLoad(h, resp), resp).active == AfterLoad(h, resp).active;
    }
  }

  /** An accepted switch shows the requested name unless the reload brings news:
      an empty list, or a composition flagged active. */
  lemma SwitchShowsRequestedName(h: HomeState, name: string, reload: LoadResponse)
    requires reload.LoadFailed?
             || (reload.Received? && !Clears(reload.payload)
                 && (reload.payload.Items? ==>
                       forall j :: 0 <= j < |reload.payload.items| ==> !reload.payload.items[j].is_active))
    ensures AfterSwitch(h, name, Switched, reload).active == Str(name)
  {
  }

  /** A refused or failed switch changes nothing. */
  lemma FailedSwitchKeepsState(h: HomeState, name: string, reply: SwitchReply, reload: LoadResponse)
    requires !reply.Switched?
    ensures AfterSwitch(h, name, reply, reload) == h
    ensures SwitchNotice(name, reply) != "✅ Switched to: " + name
  {
    assert SwitchNotice(name, reply)[0] == '❌';
  }

  /** The page component's state fields. */
  class HomePage {
    var compositions: Payload
    var active: ActiveValue

    function State(): HomeState
      reads this
    {
      HomeState(compositions, active)
    }

    constructor ()
      ensures State() == Initial
    {
      compositions := Items([]);
      active := Str("");
    }

    method LoadCompositions(resp: LoadResponse)
      modifies this
      ensures State() == AfterLoad(old(State()), resp)
    {
      if resp.LoadFailed? {
        return;
      }
      var data := resp.payload;
      if Clears(data) {
        active := EmptyArray;
        compositions := Items([]);
        return;
      }
      compositions := data;
      if data.ErrorObject? {
        // `data.find` is not a function: the TypeError is caught and logged
        return;
      }
      var found := FindFirst(data.items, (c: Composition) => c.is_active);
      if found.Some? {
        active := Str(found.value.name);
      }
    }

    method SwitchComposition(name: string, reply: SwitchReply, reload: LoadResponse) returns (notice: string)
      modifies this
      ensures State() == AfterSwitch(old(State()), name, reply, reload)
      ensures notice == SwitchNotice(name, reply)
    {
      if reply.Switched? {
        active := Str(name);
        LoadCompositions(reload);
      }
      notice := SwitchNotice(name, reply);
    }
  }
}

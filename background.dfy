/**
 * The background script (entrypoints/background.ts): it keeps one toolbar
 * icon per tab, set from the classification messages the tabs send, and on a
 * toolbar click asks the tab for its Markdown URL and opens it in a new tab.
 * The browser's per-tab icons are the `icons` map, `tabs.sendMessage` the
 * `queriedTabs` log and `tabs.create` the `openedUrls` log.
 */
module Background {
  import opened Wrappers
  import opened Protocol

  const BLUE_ICON: string := "/icon-blue.png"
  const GREEN_ICON: string := "/icon-green.png"
  const GRAY_ICON: string := "/icon-gray.png"

  /** `ICON_MAP`: message type to icon path. */
  const ICON_MAP: map<string, string> := map[
    MARKDOWN_FOUND := BLUE_ICON,
    MARKDOWN_LIKELY := GREEN_ICON,
    MARKDOWN_NOT_FOUND := GRAY_ICON
  ]

  /** A tab id that passes `if (!id) return`: present and not 0. */
  predicate IsTruthyId(id: Option<int>) {
    id.Some? && id.value != 0
  }

  /**
   * What `tabs.sendMessage(tab.id, { type: "get-markdown-url" })` settles to:
   * a rejection (`NoAnswer`), or a response whose `url` may be missing.
   */
  datatype Reply = NoAnswer | Answer(url: Option<string>)

  /** One call of the `runtime.onMessage` listener: the message and its sender's tab id. */
  datatype Delivery = Delivery(message: Message, senderTab: Option<int>)

  /** The listener calls `setIcon` for this delivery, on tab `t`. */
  predicate SetsIconOf(d: Delivery, t: int) {
    IsTruthyId(d.senderTab) && d.senderTab.value == t && d.message.tag in ICON_MAP
  }

  /**
   * The per-tab icons after the listener handles `d`: the sender's tab shows
   * the icon of the message's type, and no other entry changes.
   */
  function IconUpdate(icons: map<int, string>, d: Delivery): (r: map<int, string>)
    ensures forall t :: SetsIconOf(d, t) ==> t in r && r[t] == ICON_MAP[d.message.tag]
    ensures forall t :: !SetsIconOf(d, t) ==> (t in r <==> t in icons) && (t in r ==> r[t] == icons[t])
  {
    if IsTruthyId(d.senderTab) && d.message.tag in ICON_MAP then
      icons[d.senderTab.value := ICON_MAP[d.message.tag]]
    else
      icons
  }

  /** A sender without a truthy tab id (tab 0 included) changes no icon. */
  lemma NoTabNoChange(icons: map<int, string>, d: Delivery)
    requires !IsTruthyId(d.senderTab)
    ensures IconUpdate(icons, d) == icons
  {
  }

  /** A message type outside `ICON_MAP` changes no icon. */
  lemma UnknownTypeNoChange(icons: map<int, string>, d: Delivery)
    requires d.message.tag != MARKDOWN_FOUND && d.message.tag != MARKDOWN_LIKELY
    requires d.message.tag != MARKDOWN_NOT_FOUND
    ensures IconUpdate(icons, d) == icons
  {
  }

  /** found is blue, likely is green, not-found is gray. */
  lemma IconColours(icons: map<int, string>, d: Delivery)
    requires IsTruthyId(d.senderTab)
    ensures d.message.tag == MARKDOWN_FOUND ==> IconUpdate(icons, d)[d.senderTab.value] == BLUE_ICON
    ensures d.message.tag == MARKDOWN_LIKELY ==> IconUpdate(icons, d)[d.senderTab.value] == GREEN_ICON
    ensures d.message.tag == MARKDOWN_NOT_FOUND ==> IconUpdate(icons, d)[d.senderTab.value] == GRAY_ICON
  {
  }

  /** The icons after the listener has handled `ds`, in order. */
  function Replay(icons: map<int, string>, ds: seq<Delivery>): (r: map<int, string>)
    decreases |ds|
  {
    if |ds| == 0 then icons
    else IconUpdate(Replay(icons, ds[..|ds| - 1]), ds[|ds| - 1])
  }

  /** The latest icon-setting message from a tab decides its icon. */
  lemma {:induction false} ReplayLatestWins(icons: map<int, string>, ds: seq<Delivery>, t: int, k: int)
    requires 0 <= k < |ds| && SetsIconOf(ds[k], t)
    requires forall j :: k < j < |ds| ==> !SetsIconOf(ds[j], t)
    ensures t in Replay(icons, ds) && Replay(icons, ds)[t] == ICON_MAP[ds[k].message.tag]
    decreases |ds|
  {
    var init := ds[..|ds| - 1];
    if k < |ds| - 1 {
      assert forall j :: k < j < |init| ==> init[j] == ds[j];
      ReplayLatestWins(icons, init, t, k);
    }
  }

  /** A tab that sent no icon-setting message keeps its icon. */
  lemma {:induction false} ReplayUntouched(icons: map<int, string>, ds: seq<Delivery>, t: int)
    requires forall j :: 0 <= j < |ds| ==> !SetsIconOf(ds[j], t)
    ensures t in Replay(icons, ds) <==> t in icons
    ensures t in icons ==> Replay(icons, ds)[t] == icons[t]
    decreases |ds|
  {
    if |ds| > 0 {
      var init := ds[..|ds| - 1];
      assert forall j :: 0 <= j < |init| ==> init[j] == ds[j];
      ReplayUntouched(icons, init, t);
    }
  }

  /** The two listeners the background script registers, over the state they change. */
  class Coordinator {
    var icons: map<int, string>
    var queriedTabs: seq<int>
    var openedUrls: seq<string>

    /**
     * Icons only ever hold one of the three paths and never under tab 0;
     * every query went to a truthy tab id; every opened url is non-empty.
     */
    ghost predicate Valid()
      reads this
    {
      (forall t :: t in icons ==> t != 0 && icons[t] in ICON_MAP.Values) &&
      (forall i :: 0 <= i < |queriedTabs| ==> queriedTabs[i] != 0) &&
      (forall i :: 0 <= i < |openedUrls| ==> openedUrls[i] != "")
    }

    constructor ()
      ensures Valid()
      ensures icons == map[] && queriedTabs == [] && openedUrls == []
    {
      icons, queriedTabs, openedUrls := map[], [], [];
    }

    /** The `runtime.onMessage` listener. */
    method OnMessage(message: Message, senderTab: Option<int>)
      requires Valid()
      modifies this
      ensures Valid()
      ensures icons == IconUpdate(old(icons), Delivery(message, senderTab))
      ensures queriedTabs == old(queriedTabs) && openedUrls == old(openedUrls)
    {
      if !IsTruthyId(senderTab) {
        return;
      }
      if message.tag !in ICON_MAP {
        return;
      }
      icons := icons[senderTab.value := ICON_MAP[message.tag]];
    }

    /**
     * The `action.onClicked` listener, with `reply` for what the query to
     * the tab settled to. A rejection is caught and opens nothing.
     */
    method OnClicked(tabId: Option<int>, reply: Reply)
      requires Valid()
      modifies this
      ensures Valid()
      ensures icons == old(icons)
      ensures queriedTabs == old(queriedTabs) + (if IsTruthyId(tabId) then [tabId.value] else [])
      ensures openedUrls == old(openedUrls) +
        (if IsTruthyId(tabId) && reply.Answer? && reply.url.Some? && reply.url.value != ""
         then [reply.url.value] else [])
    {
      if !IsTruthyId(tabId) {
        return;
      }
      queriedTabs := queriedTabs + [tabId.value];
      match reply {
        case NoAnswer =>
        case Answer(url) =>
          if url.Some? && url.value != "" {
            openedUrls := openedUrls + [url.value];
          }
      }
    }
  }
}

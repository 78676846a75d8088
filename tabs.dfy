/** The tab switcher (script.js:237-253). A click on a `.tab-link`
    deactivates every tab and every `.tab-panel`, then activates the clicked
    tab and the element whose id is the tab's `data-tab` attribute.

    `document.getElementById` searches the whole document; here it searches
    the panels and finds the first with that id. When none has it, the call
    yields `null` and reading its `classList` throws a `TypeError` after the
    tabs and panels were already changed: `Click` reports that as `ok ==
    false`. */
module Tabs {
  import opened Wrappers

  /** The index of the first panel whose id is `id`, if any. */
  function PanelIndex(panelIds: seq<string>, id: string): (r: Option<nat>)
    ensures r.None? ==> forall p :: 0 <= p < |panelIds| ==> panelIds[p] != id
    ensures r.Some? ==> r.value < |panelIds| && panelIds[r.value] == id &&
                        forall p :: 0 <= p < r.value ==> panelIds[p] != id
  {
    if panelIds == [] then None
    else if panelIds[0] == id then Some(0)
    else match PanelIndex(panelIds[1..], id)
      case None => None
      case Some(p) => Some(p + 1)
  }

  /** The number of set flags. */
  function CountActive(flags: seq<bool>): (n: nat)
    ensures n <= |flags|
  {
    if flags == [] then 0 else (if flags[0] then 1 else 0) + CountActive(flags[1..])
  }

  /** Flags set at exactly one position count one. */
  lemma {:induction false} CountActiveOne(flags: seq<bool>, k: nat)
    requires k < |flags| && forall j :: 0 <= j < |flags| ==> (flags[j] <==> j == k)
    ensures CountActive(flags) == 1
  {
    if k == 0 {
      CountActiveNone(flags[1..]);
    } else {
      CountActiveOne(flags[1..], k - 1);
    }
  }

  /** Flags none of which is set count zero. */
  lemma {:induction false} CountActiveNone(flags: seq<bool>)
    requires forall j :: 0 <= j < |flags| ==> !flags[j]
    ensures CountActive(flags) == 0
  {
    if flags != [] {
      CountActiveNone(flags[1..]);
    }
  }

  /** The tab links and tab panels of the page, in document order, with
      their `active` classes. The handlers exist only when the page has at
      least one of each. */
  class TabSet {
    const targets: seq<string>
    const panelIds: seq<string>
    var tabActive: seq<bool>
    var panelActive: seq<bool>

    constructor (targets: seq<string>, panelIds: seq<string>, tabActive: seq<bool>, panelActive: seq<bool>)
      requires |targets| > 0 && |panelIds| > 0
      requires |tabActive| == |targets| && |panelActive| == |panelIds|
      ensures this.targets == targets && this.panelIds == panelIds
      ensures this.tabActive == tabActive && this.panelActive == panelActive
      ensures Valid()
    {
      this.targets := targets;
      this.panelIds := panelIds;
      this.tabActive := tabActive;
      this.panelActive := panelActive;
    }

    predicate Valid()
      reads this
    {
      |targets| > 0 && |panelIds| > 0 && |tabActive| == |targets| && |panelActive| == |panelIds|
    }

    /** The click handler of tab `k`. Afterwards tab `k` is the only active
        tab; the first panel whose id is the tab's target is the only active
        panel, and when there is none, no panel is active and the handler
        has thrown. */
    method Click(k: nat) returns (ok: bool)
      requires Valid() && k < |targets|
      modifies this
      ensures Valid()
      ensures forall j :: 0 <= j < |tabActive| ==> (tabActive[j] <==> j == k)
      ensures ok <==> PanelIndex(panelIds, targets[k]).Some?
      ensures forall p :: 0 <= p < |panelActive| ==>
        (panelActive[p] <==> PanelIndex(panelIds, targets[k]) == Some(p))
    {
      var target := targets[k];
      var j := 0;
      while j < |tabActive|
        invariant 0 <= j <= |tabActive| == |targets|
        invariant panelActive == old(panelActive)
        invariant forall i :: 0 <= i < j ==> !tabActive[i]
      {
        tabActive := tabActive[j := false];
        j := j + 1;
      }
      var p := 0;
      while p < |panelActive|
        invariant 0 <= p <= |panelActive| == |panelIds|
        invariant forall i :: 0 <= i < |tabActive| ==> !tabActive[i]
        invariant |tabActive| == |targets|
        invariant forall i :: 0 <= i < p ==> !panelActive[i]
      {
        panelActive := panelActive[p := false];
        p := p + 1;
      }
      tabActive := tabActive[k := true];
      match PanelIndex(panelIds, target) {
        case None =>
          ok := false;
        case Some(q) =>
          panelActive := panelActive[q := true];
          ok := true;
      }
    }
  }

  /** A click on a tab whose target names a panel leaves exactly one active
      tab and exactly one active panel. */
  lemma ClickLeavesOnePair(tabActive: seq<bool>, panelActive: seq<bool>, k: nat, q: nat)
    requires k < |tabActive| && forall j :: 0 <= j < |tabActive| ==> (tabActive[j] <==> j == k)
    requires q < |panelActive| && forall p :: 0 <= p < |panelActive| ==> (panelActive[p] <==> p == q)
    ensures CountActive(tabActive) == 1 && CountActive(panelActive) == 1
  {
    CountActiveOne(tabActive, k);
    CountActiveOne(panelActive, q);
  }
}

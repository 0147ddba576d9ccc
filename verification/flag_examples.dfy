/** The Flags panel's story fixtures, checked against the model. */
module FlagExamples {
  import opened Options
  import opened FlagOverrides
  import opened FlagFilter

  const Notifications := Toggle("platform.chrome.notifications", true)
  const DarkMode := Toggle("platform.chrome.dark-mode", false)
  const NewNav := Toggle("platform.chrome.new-nav", true)
  const AdvisorNewUi := Toggle("platform.insights.advisor-new-ui", true)
  const InventoryGroups := Toggle("platform.insights.inventory-groups", false)
  const NewPermissions := Toggle("platform.rbac.new-permissions", true)
  const EnhancedReports := Toggle("platform.cost.enhanced-reports", false)
  const WebhookSupport := Toggle("platform.sources.webhook-support", true)

  /** The eight flags of the default story: five enabled, three disabled. */
  const DefaultFlags: seq<Toggle> :=
    [Notifications, DarkMode, NewNav, AdvisorNewUi, InventoryGroups, NewPermissions, EnhancedReports, WebhookSupport]

  lemma KeepStep(s: seq<Toggle>, k: nat, p: Toggle -> bool)
    requires k < |s|
    ensures |Keep(s[k..], p)| == (if p(s[k]) then 1 else 0) + |Keep(s[k + 1..], p)|
  {
    assert s[k..][1..] == s[k + 1..];
  }

  /** In the default story, five flags are enabled. */
  lemma EnabledCount()
    ensures |Keep(DefaultFlags, (t: Toggle) => t.enabled)| == 5
  {
    var enabled := (t: Toggle) => t.enabled;
    var s := DefaultFlags;
    assert |Keep(s[8..], enabled)| == 0;
    KeepStep(s, 7, enabled);
    assert |Keep(s[7..], enabled)| == 1;
    KeepStep(s, 6, enabled);
    assert |Keep(s[6..], enabled)| == 1;
    KeepStep(s, 5, enabled);
    assert |Keep(s[5..], enabled)| == 2;
    KeepStep(s, 4, enabled);
    assert |Keep(s[4..], enabled)| == 2;
    KeepStep(s, 3, enabled);
    assert |Keep(s[3..], enabled)| == 3;
    KeepStep(s, 2, enabled);
    assert |Keep(s[2..], enabled)| == 4;
    KeepStep(s, 1, enabled);
    assert |Keep(s[1..], enabled)| == 4;
    KeepStep(s, 0, enabled);
    assert |Keep(s[0..], enabled)| == 5;
    assert s[0..] == s;
  }

  /** The filter story: "Enabled" lists 5 of 8 flags, "Disabled" 3 of 8, "All" 8 of 8. */
  lemma FilterCounts()
    ensures |FilteredAndSortedFlags(DefaultFlags, "", All, map[])| == 8
    ensures |FilteredAndSortedFlags(DefaultFlags, "", EnabledOnly, map[])| == 5
    ensures |FilteredAndSortedFlags(DefaultFlags, "", DisabledOnly, map[])| == 3
  {
    EnabledCount();
    EnabledDisabledSplit(DefaultFlags, "", map[]);
    assert |multiset(FilteredAndSortedFlags(DefaultFlags, "", EnabledOnly, map[]))| == 5;
    assert |multiset(FilteredAndSortedFlags(DefaultFlags, "", All, map[]))| == 8;
  }
}

/**
 The flag-override bookkeeping of the debugger's Flags panel. The feature-flag
 client's toggles are a list of (name, enabled) records; the active overrides
 map a flag name to its ORIGINAL value, so an overridden flag sits at the
 negation of that value. Pending overrides are stored overrides whose effect
 was lost on a hard refresh and that wait for the user to re-apply them.
 */
module FlagOverrides {
  import opened Options

  datatype Toggle = Toggle(name: string, enabled: bool)

  /** Flag name to original value. */
  type Overrides = map<string, bool>

  /** `toggles.find((t) => t.name === name)`, as a position: the first toggle with that name. */
  function FindIndex(toggles: seq<Toggle>, name: string): (r: Option<nat>)
    ensures r.Some? ==> r.value < |toggles| && toggles[r.value].name == name
    ensures r.Some? ==> forall j :: 0 <= j < r.value ==> toggles[j].name != name
    ensures r.None? <==> forall j :: 0 <= j < |toggles| ==> toggles[j].name != name
  {
    if |toggles| == 0 then None
    else if toggles[0].name == name then Some(0)
    else
      match FindIndex(toggles[1..], name)
      case None => (assert forall j :: 1 <= j < |toggles| ==> toggles[j] == toggles[1..][j - 1]; None)
      case Some(i) => Some(i + 1)
  }

  /** The value the client reports for a flag: that of the first toggle with the name. */
  function ValueOf(toggles: seq<Toggle>, name: string): Option<bool> {
    match FindIndex(toggles, name)
    case None => None
    case Some(i) => Some(toggles[i].enabled)
  }

  predicate SameNames(a: seq<Toggle>, b: seq<Toggle>) {
    |a| == |b| && forall i :: 0 <= i < |a| ==> a[i].name == b[i].name
  }

  /** The first-match search sees only names. */
  lemma {:induction false} FindIndexSameNames(a: seq<Toggle>, b: seq<Toggle>, name: string)
    requires SameNames(a, b)
    ensures FindIndex(a, name) == FindIndex(b, name)
  {
    if |a| != 0 && a[0].name != name {
      FindIndexSameNames(a[1..], b[1..], name);
    }
  }

  /** The override invariant: every overridden flag exists and sits at the negation of its original. */
  predicate Inv(toggles: seq<Toggle>, active: Overrides) {
    forall n :: n in active ==> ValueOf(toggles, n) == Some(!active[n])
  }

  /**
   Writing `values[name]` into the first toggle of each name in `names` that
   `values` maps, all other toggles untouched: what a `forEach` over an
   override map does to the client's toggles.
   */
  function Overwrite(toggles: seq<Toggle>, values: Overrides, names: set<string>): (r: seq<Toggle>)
    ensures SameNames(r, toggles)
  {
    seq(|toggles|, i requires 0 <= i < |toggles| =>
      var t := toggles[i];
      if t.name in names && t.name in values && FindIndex(toggles, t.name) == Some(i)
      then t.(enabled := values[t.name]) else t)
  }

  /** Setting the first toggle named `name`, if any, to `v`. */
  function SetEnabled(toggles: seq<Toggle>, name: string, v: bool): (r: seq<Toggle>)
    ensures SameNames(r, toggles)
    ensures ValueOf(toggles, name).Some? ==> ValueOf(r, name) == Some(v)
    ensures ValueOf(toggles, name).None? ==> r == toggles
    ensures forall n :: n != name ==> ValueOf(r, n) == ValueOf(toggles, n)
  {
    match FindIndex(toggles, name)
    case None => toggles
    case Some(i) =>
      var r := toggles[i := toggles[i].(enabled := v)];
      assert SameNames(r, toggles);
      FindIndexSameNames(r, toggles, name);
      assert forall n :: FindIndex(r, n) == FindIndex(toggles, n) by {
        forall n ensures FindIndex(r, n) == FindIndex(toggles, n) {
          FindIndexSameNames(r, toggles, n);
        }
      }
      r
  }

  lemma OverwriteStep(toggles: seq<Toggle>, values: Overrides, names: set<string>, k: string)
    requires k in values && k !in names
    ensures SetEnabled(Overwrite(toggles, values, names), k, values[k]) == Overwrite(toggles, values, names + {k})
  {
    var cur := Overwrite(toggles, values, names);
    FindIndexSameNames(cur, toggles, k);
    var rhs := Overwrite(toggles, values, names + {k});
    match FindIndex(toggles, k)
    case None =>
      forall i | 0 <= i < |cur| ensures cur[i] == rhs[i] {
      }
    case Some(j) =>
      var lhs := cur[j := cur[j].(enabled := values[k])];
      forall i | 0 <= i < |cur| ensures lhs[i] == rhs[i] {
        if i != j {
          assert toggles[i].name == k ==> FindIndex(toggles, k) != Some(i);
        }
      }
      assert lhs == rhs;
  }

  /** The effect of an override map being written back: reading a flag gives the written value. */
  lemma OverwriteValue(toggles: seq<Toggle>, values: Overrides, names: set<string>, n: string)
    ensures ValueOf(Overwrite(toggles, values, names), n)
            == if n in names && n in values && ValueOf(toggles, n).Some? then Some(values[n]) else ValueOf(toggles, n)
  {
    FindIndexSameNames(Overwrite(toggles, values, names), toggles, n);
  }

  /**
   The override-map update of a toggle, given the flag's pre-toggle value:
   the first toggle records that value as original, a toggle back to the
   original drops the name, anything else leaves the map as it is.
   */
  function NextOverrides(active: Overrides, name: string, current: bool): (r: Overrides)
    ensures forall n :: n != name ==> (n in r <==> n in active) && (n in active ==> r[n] == active[n])
    ensures name !in active ==> name in r && r[name] == current
    ensures name in active && active[name] == !current ==> name !in r
  {
    if name !in active then active[name := current]
    else if !current == active[name] then active - {name}
    else active
  }

  /**
   `toggleFlagOverride`: an unknown name changes nothing; otherwise the first
   toggle with the name is flipped and the override map updated.
   */
  function ToggleFlagOverride(toggles: seq<Toggle>, active: Overrides, name: string): (r: (seq<Toggle>, Overrides))
    ensures ValueOf(toggles, name).None? ==> r == (toggles, active)
    ensures ValueOf(toggles, name).Some? ==> ValueOf(r.0, name) == Some(!ValueOf(toggles, name).value)
    ensures ValueOf(toggles, name).Some? ==> r.1 == NextOverrides(active, name, ValueOf(toggles, name).value)
  {
    match FindIndex(toggles, name)
    case None => (toggles, active)
    case Some(i) =>
      var current := toggles[i].enabled;
      (SetEnabled(toggles, name, !current), NextOverrides(active, name, current))
  }

  /** A toggle moves only the toggled flag, and keeps every override at the negation of its original. */
  lemma ToggleKeepsInvariant(toggles: seq<Toggle>, active: Overrides, name: string)
    requires Inv(toggles, active)
    ensures var r := ToggleFlagOverride(toggles, active, name);
            && (forall n :: n != name ==> ValueOf(r.0, n) == ValueOf(toggles, n))
            && Inv(r.0, r.1)
  {
    var r := ToggleFlagOverride(toggles, active, name);
    if ValueOf(toggles, name).Some? {
      var current := ValueOf(toggles, name).value;
      assert r.0 == SetEnabled(toggles, name, !current);
      forall n | n in r.1 ensures ValueOf(r.0, n) == Some(!r.1[n]) {
        if n == name {
          assert name !in active;
        }
      }
    }
  }

  /** Recording a toggle and then its reverse leaves the override map as it was. */
  lemma NextOverridesTwice(active: Overrides, name: string, current: bool)
    requires name in active ==> active[name] == !current
    ensures NextOverrides(NextOverrides(active, name, current), name, !current) == active
  {
    var a1 := NextOverrides(active, name, current);
    if name in active {
      assert a1 == active - {name};
    } else {
      assert a1 == active[name := current];
    }
  }

  /** Flipping the first toggle of a name and flipping it back leaves the toggles as they were. */
  lemma FlipTwice(toggles: seq<Toggle>, name: string, i: nat)
    requires FindIndex(toggles, name) == Some(i)
    ensures var t1 := SetEnabled(toggles, name, !toggles[i].enabled);
            SetEnabled(t1, name, toggles[i].enabled) == toggles
  {
    var current := toggles[i].enabled;
    var t1 := SetEnabled(toggles, name, !current);
    assert t1 == toggles[i := toggles[i].(enabled := !current)];
    FindIndexSameNames(t1, toggles, name);
    assert SetEnabled(t1, name, current) == t1[i := t1[i].(enabled := current)];
  }

  /** Toggling the same flag twice restores both the flag values and the override map. */
  lemma ToggleTwice(toggles: seq<Toggle>, active: Overrides, name: string)
    requires Inv(toggles, active)
    ensures ToggleFlagOverride(ToggleFlagOverride(toggles, active, name).0, ToggleFlagOverride(toggles, active, name).1, name)
            == (toggles, active)
  {
    match FindIndex(toggles, name)
    case None =>
    case Some(i) =>
      var current := toggles[i].enabled;
      FlipTwice(toggles, name, i);
      NextOverridesTwice(active, name, current);
      var t1 := SetEnabled(toggles, name, !current);
      FindIndexSameNames(t1, toggles, name);
      assert ValueOf(t1, name) == Some(!current);
  }

  /** `resetAllOverrides`: every overridden flag back to its original, and no overrides left. */
  method ResetAllOverrides(toggles: seq<Toggle>, active: Overrides) returns (toggles': seq<Toggle>, active': Overrides)
    ensures toggles' == Overwrite(toggles, active, active.Keys)
    ensures active' == map[]
  {
    toggles' := toggles;
    var todo := active.Keys;
    assert Overwrite(toggles, active, {}) == toggles;
    while todo != {}
      invariant todo <= active.Keys
      invariant toggles' == Overwrite(toggles, active, active.Keys - todo)
      decreases |todo|
    {
      var k :| k in todo;
      OverwriteStep(toggles, active, active.Keys - todo, k);
      toggles' := SetEnabled(toggles', k, active[k]);
      assert active.Keys - todo + {k} == active.Keys - (todo - {k});
      todo := todo - {k};
    }
    active' := map[];
  }

  /** After a reset, each overridden flag that exists reads as its original value; nothing else moves. */
  lemma ResetRestoresOriginals(toggles: seq<Toggle>, active: Overrides, n: string)
    ensures ValueOf(Overwrite(toggles, active, active.Keys), n)
            == if n in active && ValueOf(toggles, n).Some? then Some(active[n]) else ValueOf(toggles, n)
  {
    OverwriteValue(toggles, active, active.Keys, n);
  }

  lemma OverwriteAfterFlipAt(toggles: seq<Toggle>, active: Overrides, name: string, i: nat, j: nat)
    requires FindIndex(toggles, name) == Some(i) && j < |toggles|
    requires name in active ==> active[name] == !toggles[i].enabled
    ensures var t1 := toggles[i := toggles[i].(enabled := !toggles[i].enabled)];
            var a1 := NextOverrides(active, name, toggles[i].enabled);
            Overwrite(t1, a1, a1.Keys)[j] == Overwrite(toggles, active, active.Keys)[j]
  {
    var t1 := toggles[i := toggles[i].(enabled := !toggles[i].enabled)];
    var a1 := NextOverrides(active, name, toggles[i].enabled);
    var n := toggles[j].name;
    assert SameNames(t1, toggles);
    FindIndexSameNames(t1, toggles, n);
    if j == i {
      if name in active {
        assert a1 == active - {name};
      } else {
        assert a1 == active[name := toggles[i].enabled];
      }
    } else {
      assert t1[j] == toggles[j];
    }
  }

  lemma OverwriteAfterFlip(toggles: seq<Toggle>, active: Overrides, name: string, i: nat)
    requires FindIndex(toggles, name) == Some(i)
    requires name in active ==> active[name] == !toggles[i].enabled
    ensures var t1 := toggles[i := toggles[i].(enabled := !toggles[i].enabled)];
            var a1 := NextOverrides(active, name, toggles[i].enabled);
            Overwrite(t1, a1, a1.Keys) == Overwrite(toggles, active, active.Keys)
  {
    var t1 := toggles[i := toggles[i].(enabled := !toggles[i].enabled)];
    var a1 := NextOverrides(active, name, toggles[i].enabled);
    var lhs := Overwrite(t1, a1, a1.Keys);
    var rhs := Overwrite(toggles, active, active.Keys);
    forall j | 0 <= j < |toggles| ensures lhs[j] == rhs[j] {
      OverwriteAfterFlipAt(toggles, active, name, i, j);
    }
  }

  /** A toggle does not change what a reset would restore. */
  lemma ToggleThenReset(toggles: seq<Toggle>, active: Overrides, name: string)
    requires Inv(toggles, active)
    ensures var (t1, a1) := ToggleFlagOverride(toggles, active, name);
            Overwrite(t1, a1, a1.Keys) == Overwrite(toggles, active, active.Keys)
  {
    match FindIndex(toggles, name)
    case None =>
    case Some(i) =>
      var current := toggles[i].enabled;
      assert toggles[i := toggles[i].(enabled := !current)] == SetEnabled(toggles, name, !current);
      if name in active {
        assert ValueOf(toggles, name) == Some(!active[name]);
      }
      OverwriteAfterFlip(toggles, active, name, i);
  }

  /** Toggling each name of `names` in turn. */
  function ToggleAll(toggles: seq<Toggle>, active: Overrides, names: seq<string>): (seq<Toggle>, Overrides)
    decreases |names|
  {
    if |names| == 0 then (toggles, active)
    else
      var (t1, a1) := ToggleFlagOverride(toggles, active, names[0]);
      ToggleAll(t1, a1, names[1..])
  }

  /**
   Whatever flags are toggled, a reset afterwards restores what a reset
   before would have; from no overrides, it restores the client's original
   toggles (the clear-overrides story).
   */
  lemma {:induction false} ResetUndoesToggles(toggles: seq<Toggle>, active: Overrides, names: seq<string>)
    requires Inv(toggles, active)
    ensures var (t, a) := ToggleAll(toggles, active, names);
            Overwrite(t, a, a.Keys) == Overwrite(toggles, active, active.Keys)
    ensures active == map[] ==> var (t, a) := ToggleAll(toggles, active, names); Overwrite(t, a, a.Keys) == toggles
    decreases |names|
  {
    if |names| != 0 {
      var (t1, a1) := ToggleFlagOverride(toggles, active, names[0]);
      ToggleKeepsInvariant(toggles, active, names[0]);
      ToggleThenReset(toggles, active, names[0]);
      ResetUndoesToggles(t1, a1, names[1..]);
    }
    if active == map[] {
      assert Overwrite(toggles, active, active.Keys) == toggles;
    }
  }

  /** Each original value negated: the value an override puts a flag at. */
  function Negated(m: Overrides): (r: Overrides)
    ensures r.Keys == m.Keys
    ensures forall n :: n in m ==> r[n] == !m[n]
  {
    map n | n in m :: !m[n]
  }

  /** A stored override whose flag reads as its original: the override was lost. */
  predicate IsStale(toggles: seq<Toggle>, stored: Overrides, n: string) {
    n in stored && ValueOf(toggles, n) == Some(stored[n])
  }

  /** A stored override whose flag reads as the negation of its original: still in force. */
  predicate IsLive(toggles: seq<Toggle>, stored: Overrides, n: string) {
    n in stored && ValueOf(toggles, n) == Some(!stored[n])
  }

  /** The part of `stored` whose names satisfy `keep`. */
  function Restrict(stored: Overrides, keep: string -> bool): (r: Overrides)
    ensures forall n :: n in r <==> n in stored && keep(n)
    ensures forall n :: n in r ==> r[n] == stored[n]
  {
    map n | n in stored && keep(n) :: stored[n]
  }

  /**
   The mount-time classification of the stored overrides: a stored flag whose
   value equals its original lost its override and becomes pending; one at the
   negation is still active; a missing flag is ignored. Pending is null unless
   something is stale, and an empty stored map changes nothing.
   */
  function RestoreOnMount(toggles: seq<Toggle>, stored: Overrides): (r: (Overrides, Option<Overrides>))
    ensures forall n :: n in r.0 <==> IsLive(toggles, stored, n)
    ensures forall n :: n in r.0 ==> n in stored && r.0[n] == stored[n]
    ensures r.1.Some? ==> |r.1.value| > 0
    ensures r.1.Some? ==> forall n :: n in r.1.value <==> IsStale(toggles, stored, n)
    ensures r.1.Some? ==> forall n :: n in r.1.value ==> n in stored && r.1.value[n] == stored[n]
    ensures r.1.None? ==> forall n :: !IsStale(toggles, stored, n)
  {
    if |stored| == 0 then (map[], None)
    else
      var stale := Restrict(stored, n => IsStale(toggles, stored, n));
      var active := Restrict(stored, n => IsLive(toggles, stored, n));
      if |stale| > 0 then (active, Some(stale))
      else
        EmptyMap(stale);
        (active, None)
  }

  /** The flags recognised as still overridden satisfy the override invariant. */
  lemma RestoreKeepsInvariant(toggles: seq<Toggle>, stored: Overrides)
    ensures Inv(toggles, RestoreOnMount(toggles, stored).0)
  {
    var active := RestoreOnMount(toggles, stored).0;
    forall n | n in active ensures ValueOf(toggles, n) == Some(!active[n]) {
      assert IsLive(toggles, stored, n);
    }
  }

  lemma EmptyMap(m: Overrides)
    requires |m| == 0
    ensures forall k :: k !in m
  {
    forall k ensures k !in m {
      if k in m {
        NonEmptyMap(m, k);
      }
    }
  }

  lemma NonEmptyMap(m: Overrides, k: string)
    requires k in m
    ensures |m| > 0
  {
    assert k in m.Keys;
  }

  /** `applyPendingOverrides`: pending flags go to the negation of their originals and join the active map. */
  method ApplyPendingOverrides(toggles: seq<Toggle>, active: Overrides, pending: Option<Overrides>)
    returns (toggles': seq<Toggle>, active': Overrides, pending': Option<Overrides>)
    ensures pending.None? ==> toggles' == toggles && active' == active
    ensures pending.Some? ==> toggles' == Overwrite(toggles, Negated(pending.value), pending.value.Keys)
    ensures pending.Some? ==> active' == active + pending.value
    ensures pending' == None
  {
    pending' := None;
    if pending.None? {
      return toggles, active, pending';
    }
    var p := pending.value;
    var flipped := Negated(p);
    toggles' := toggles;
    var todo := p.Keys;
    assert Overwrite(toggles, flipped, {}) == toggles;
    while todo != {}
      invariant todo <= p.Keys
      invariant toggles' == Overwrite(toggles, flipped, p.Keys - todo)
      decreases |todo|
    {
      var k :| k in todo;
      OverwriteStep(toggles, flipped, p.Keys - todo, k);
      toggles' := SetEnabled(toggles', k, flipped[k]);
      assert p.Keys - todo + {k} == p.Keys - (todo - {k});
      todo := todo - {k};
    }
    active' := active + p;
  }

  /** Applying pending overrides for existing flags keeps the override invariant. */
  lemma ApplyKeepsInvariant(toggles: seq<Toggle>, active: Overrides, pending: Overrides)
    requires Inv(toggles, active)
    requires forall n :: n in pending ==> ValueOf(toggles, n).Some?
    ensures Inv(Overwrite(toggles, Negated(pending), pending.Keys), active + pending)
  {
    var t' := Overwrite(toggles, Negated(pending), pending.Keys);
    forall n | n in active + pending ensures ValueOf(t', n) == Some(!(active + pending)[n]) {
      OverwriteValue(toggles, Negated(pending), pending.Keys, n);
    }
  }

  lemma SomeKey(m: Overrides)
    requires |m| > 0
    ensures exists k :: k in m
  {
    assert m != map[];
    assert m.Keys != {};
  }

  /** Once every overridden flag is back at its original, all stored overrides classify as pending. */
  lemma RestoreAfterReset(toggles: seq<Toggle>, active: Overrides)
    requires Inv(toggles, active) && |active| > 0
    ensures RestoreOnMount(Overwrite(toggles, active, active.Keys), active) == (map[], Some(active))
  {
    var reloaded := Overwrite(toggles, active, active.Keys);
    var (restored, pending) := RestoreOnMount(reloaded, active);
    forall n | n in active ensures ValueOf(reloaded, n) == Some(active[n]) {
      OverwriteValue(toggles, active, active.Keys, n);
    }
    assert forall n :: n !in restored;
    assert restored == map[];
    SomeKey(active);
    var k :| k in active;
    assert IsStale(reloaded, active, k);
    assert pending.Some?;
    assert pending.value == active;
  }

  /** Re-applying the overrides to the reset toggles gives back the toggles from before the reset. */
  lemma ReapplyAfterReset(toggles: seq<Toggle>, active: Overrides)
    requires Inv(toggles, active)
    ensures Overwrite(Overwrite(toggles, active, active.Keys), Negated(active), active.Keys) == toggles
  {
    var reloaded := Overwrite(toggles, active, active.Keys);
    var back := Overwrite(reloaded, Negated(active), active.Keys);
    forall i | 0 <= i < |toggles| ensures back[i] == toggles[i] {
      var n := toggles[i].name;
      FindIndexSameNames(reloaded, toggles, n);
      if n in active && FindIndex(toggles, n) == Some(i) {
        assert ValueOf(toggles, n) == Some(!active[n]);
      }
    }
  }

  /**
   A hard refresh: the client comes back with every flag at its original
   value. The stored overrides are then all classified pending, and applying
   them restores exactly the toggles and overrides from before the refresh.
   */
  lemma HardRefreshRoundTrip(toggles: seq<Toggle>, active: Overrides)
    requires Inv(toggles, active) && |active| > 0
    ensures var reloaded := Overwrite(toggles, active, active.Keys);
            && RestoreOnMount(reloaded, active) == (map[], Some(active))
            && Overwrite(reloaded, Negated(active), active.Keys) == toggles
            && map[] + active == active
  {
    RestoreAfterReset(toggles, active);
    ReapplyAfterReset(toggles, active);
  }

  /** Surviving a soft reload: overrides still in force are recognised as active, with nothing pending. */
  lemma SoftReloadKeepsActive(toggles: seq<Toggle>, active: Overrides)
    requires Inv(toggles, active)
    ensures RestoreOnMount(toggles, active) == (active, None)
  {
    var (restored, pending) := RestoreOnMount(toggles, active);
    assert restored == active;
  }

  /** What the storage key holds. */
  datatype Slot = Empty | Holds(overrides: Overrides) | Unparseable

  /** What `saveStoredOverrides` does to the storage key. */
  datatype StorageWrite = RemoveKey | WriteJson(overrides: Overrides)

  /** `saveStoredOverrides`: an empty map removes the key instead of writing `{}`. */
  function SaveStoredOverrides(overrides: Overrides): (w: StorageWrite)
    ensures w == RemoveKey <==> |overrides| == 0
    ensures w.WriteJson? ==> w.overrides == overrides && |w.overrides| > 0
  {
    if |overrides| == 0 then RemoveKey else WriteJson(overrides)
  }

  function ApplyWrite(w: StorageWrite): Slot {
    match w
    case RemoveKey => Empty
    case WriteJson(m) => Holds(m)
  }

  /** `loadStoredOverrides`: a missing or unparseable value reads as no overrides. */
  function LoadStoredOverrides(slot: Slot): (r: Overrides)
    ensures slot.Holds? ==> r == slot.overrides
    ensures !slot.Holds? ==> r == map[]
  {
    match slot
    case Holds(m) => m
    case _ => map[]
  }

  /** Persisting then loading gives back the same overrides, and the key never holds `{}`. */
  lemma PersistRoundTrip(overrides: Overrides)
    ensures LoadStoredOverrides(ApplyWrite(SaveStoredOverrides(overrides))) == overrides
    ensures ApplyWrite(SaveStoredOverrides(overrides)) != Holds(map[])
  {
    if |overrides| == 0 {
      assert overrides == map[];
    }
  }
}

/**
 The tabbing manager as it runs: it overwrites tabindex and autofocus attributes in
 the page, keeps the old values in records per element and level, and puts them
 back. Each operation is proved to change page, records and stack exactly as the
 stack of constraints says.
 */
module TabbingManager {
  import opened TabbingSpec

  /* ---- one element ---- */

  /** Puts saved values back; an absent or empty tabindex is removed. */
  function Restored(e: Element, s: Saved): Element {
    e.(tabindex := if s.tabindex.Index? then s.tabindex else Absent,
       autofocus := s.autofocus || e.autofocus)
  }

  /** Disabling and restoring is undone exactly unless the tabindex was present and
      empty. */
  lemma RestoreExact(e: Element)
    ensures Restored(Disable(e), Saved(e.tabindex, e.autofocus)) == e <==> !e.tabindex.Empty?
  {
  }

  /** An element whose empty tabindex got lost can be reached afterwards if and only
      if it takes focus by itself. */
  lemma EmptyLost(e: Element)
    requires e.tabindex.Empty? && e.usable
    ensures Tabbable(e)
    ensures Tabbable(Restored(Disable(e), Saved(e.tabindex, e.autofocus))) <==> e.native
  {
  }

  /** A record without this level and the levels that follow it without a gap. */
  function DropLevels(m: map<nat, Saved>, level: nat): map<nat, Saved>
    decreases |m|
  {
    if level in m then
      assert |m - {level}| < |m| by { SmallerMap(m, level); }
      DropLevels(m - {level}, level + 1)
    else m
  }

  lemma SmallerMap(m: map<nat, Saved>, level: nat)
    requires level in m
    ensures |m - {level}| < |m|
  {
    assert (m - {level}).Keys == m.Keys - {level};
    assert |(m - {level}).Keys| == |m - {level}| && |m.Keys| == |m|;
  }

  /** The record left after restoring one level. */
  function RecordAfter(m: map<nat, Saved>, level: nat): map<nat, Saved> {
    if level == 0 then map[] else DropLevels(m, level)
  }

  /** The page with the listed elements disabled. */
  function DisableAll(page: seq<Element>, listed: seq<nat>): (r: seq<Element>)
    ensures |r| == |page|
  {
    seq(|page|, i requires 0 <= i < |page| => if i in listed then Disable(page[i]) else page[i])
  }

  /** The page with the listed elements put back after being disabled. */
  function ForgetAll(page: seq<Element>, listed: seq<nat>): (r: seq<Element>)
    ensures |r| == |page|
  {
    seq(|page|, i requires 0 <= i < |page| => if i in listed then Forgotten(page[i]) else page[i])
  }

  /** Records for the listed elements. */
  function RecordAll(page: seq<Element>, listed: seq<nat>, level: nat): (r: seq<map<nat, Saved>>)
    ensures |r| == |page|
  {
    seq(|page|, i requires 0 <= i < |page| =>
      if i in listed then map[level := Saved(page[i].tabindex, page[i].autofocus)] else map[])
  }

  lemma AllDisabled(page: seq<Element>, allowed: set<nat>, level: nat)
    ensures DisableAll(page, DisabledBelow(page, allowed, |page|)) == Overlay(page, allowed)
    ensures RecordAll(page, DisabledBelow(page, allowed, |page|), level) == Records(page, allowed, level)
    ensures ForgetAll(page, DisabledBelow(page, allowed, |page|)) == Forget(page, allowed)
  {
  }

  lemma NoneDisabled(page: seq<Element>, listed: seq<nat>, level: nat)
    requires listed == []
    ensures DisableAll(page, listed) == page && ForgetAll(page, listed) == page
    ensures RecordAll(page, listed, level) == NoRecords(|page|)
  {
    assert forall i | 0 <= i < |page| :: RecordAll(page, listed, level)[i] == NoRecords(|page|)[i];
  }

  /** One more element disabled and recorded. */
  lemma OneMore(page: seq<Element>, listed: seq<nat>, e: nat, level: nat)
    requires e < |page| && e !in listed
    ensures DisableAll(page, listed + [e]) == DisableAll(page, listed)[e := Disable(page[e])]
    ensures RecordAll(page, listed + [e], level) ==
      RecordAll(page, listed, level)[e := map[level := Saved(page[e].tabindex, page[e].autofocus)]]
    ensures DisableAll(page, listed)[e] == page[e] && RecordAll(page, listed, level)[e] == map[]
  {
  }

  /** One element moves from the disabled ones to those put back. */
  lemma OneFewer(page: seq<Element>, done: seq<nat>, e: nat, listed: seq<nat>, level: nat)
    requires e < |page| && e !in listed && e !in done
    ensures DisableAll(ForgetAll(page, done), [e] + listed)[e] == Disable(page[e])
    ensures RecordAll(page, [e] + listed, level)[e] == map[level := Saved(page[e].tabindex, page[e].autofocus)]
    ensures DisableAll(ForgetAll(page, done + [e]), listed) ==
      DisableAll(ForgetAll(page, done), [e] + listed)[e := Forgotten(page[e])]
    ensures RecordAll(page, listed, level) == RecordAll(page, [e] + listed, level)[e := map[]]
  {
  }

  lemma {:induction false} DroppedLevels(m: map<nat, Saved>, level: nat)
    ensures var r := DropLevels(m, level);
      && level !in r && r.Keys <= m.Keys
      && (r == m <==> level !in m)
    decreases |m|
  {
    if level in m {
      SmallerMap(m, level);
      DroppedLevels(m - {level}, level + 1);
    }
  }

  /** What is recorded of an element comes back, up to an empty tabindex, and the record
      is as before if and only if it had neither this level nor the one above, and
      nothing at all when the level is the lowest. */
  lemma RecordRestores(e: Element, m: map<nat, Saved>, level: nat)
    ensures var r := m[level := Saved(e.tabindex, e.autofocus)];
      && Restored(Disable(e), r[level]) == Forgotten(e)
      && (RecordAfter(r, level) == m <==>
           level !in m && level + 1 !in m && (level == 0 ==> m == map[]))
  {
    var r := m[level := Saved(e.tabindex, e.autofocus)];
    var rest := r - {level};
    assert level !in m ==> rest == m;
    assert level + 1 in rest <==> level + 1 in m;
    DroppedLevels(r, level);
    DroppedLevels(rest, level + 1);
  }

  lemma UnwindsTo(stack: seq<Context>, n: nat)
    requires n <= |stack| && (n > 0 ==> !stack[n - 1].released)
    requires forall i | n <= i < |stack| :: stack[i].released
    ensures TabbingSpec.Unwind(stack) == stack[..n]
  {
    var r := TabbingSpec.Unwind(stack);
    assert |r| == n;
  }

  /** Allowing those of the elements that can be reached leaves exactly them reachable. */
  lemma OverlayReaches(page: seq<Element>, elements: set<nat>)
    ensures forall i | 0 <= i < |page| ::
      Tabbable(Overlay(page, Allowed(page, elements))[i]) <==> Tabbable(page[i]) && i in elements
  {
  }

  predicate Prefix<T(==)>(a: seq<T>, b: seq<T>) {
    |a| <= |b| && a == b[..|a|]
  }

  class TabbingContext {
    ghost const serial: nat
    const level: nat
    const tabbable: set<nat>
    var disabled: seq<nat>
    var released: bool
    var active: bool

    constructor (ghost serial: nat, level: nat, tabbable: set<nat>)
      ensures this.serial == serial && this.level == level && this.tabbable == tabbable
      ensures disabled == [] && !released && !active
    {
      this.serial, this.level, this.tabbable := serial, level, tabbable;
      disabled, released, active := [], false, false;
    }
  }

  class TabbingManager {
    var dom: seq<Element>
    var data: seq<map<nat, Saved>>
    var stack: seq<TabbingContext>
    /** The page below all constraints, and the number of contexts made. */
    ghost var base: seq<Element>
    ghost var created: nat

    constructor (page: seq<Element>)
      ensures Valid() && base == page && created == 0 && View() == []
    {
      base := page;
      dom, data, stack, created := page, NoRecords(|page|), [], 0;
    }

    ghost function View(): (r: seq<Context>)
      reads this, stack
      ensures |r| == |stack|
    {
      seq(|stack|, i requires 0 <= i < |stack| reads this, stack =>
        Context(stack[i].serial, stack[i].tabbable, stack[i].released))
    }

    /** No constraint lies over the page. */
    ghost predicate Clear()
      reads this
    {
      dom == base && data == NoRecords(|base|)
    }

    /** This context's constraint, at its level, lies over the page. */
    ghost predicate InForce(c: TabbingContext)
      reads this, c
    {
      && dom == Overlay(base, c.tabbable)
      && data == Records(base, c.tabbable, c.level)
      && c.disabled == DisabledBelow(base, c.tabbable, |base|)
    }

    ghost predicate Ranked()
      reads this, stack
    {
      && (forall i | 0 <= i < |stack| :: stack[i].level == i)
      && (forall i | 0 <= i < |stack| - 1 :: !stack[i].active)
    }

    /** Exactly the topmost context is active, it is not released, and it alone
        shows in the page and its records. */
    ghost predicate Valid()
      reads this, stack
    {
      && Ranked()
      && (if stack == [] then Clear()
          else
            var top := stack[|stack| - 1];
            top.active && !top.released && InForce(top))
    }

    lemma PageIsShown()
      requires Valid()
      ensures dom == Shown(base, View()) && data == Kept(base, View())
    {
    }

    method RecordTabindex(e: nat, level: nat)
      requires e < |dom| && |data| == |dom|
      modifies `data
      ensures data == old(data)[e := old(data)[e][level := Saved(dom[e].tabindex, dom[e].autofocus)]]
    {
      var tabInfo: map<nat, Saved> := data[e];
      tabInfo := tabInfo[level := Saved(dom[e].tabindex, dom[e].autofocus)];
      data := data[e := tabInfo];
    }

    method RestoreTabindex(e: nat, level: nat)
      requires e < |dom| && |data| == |dom|
      modifies `dom, `data
      ensures level !in old(data)[e] ==> dom == old(dom) && data == old(data)
      ensures level in old(data)[e] ==>
        && dom == old(dom)[e := Restored(old(dom)[e], old(data)[e][level])]
        && data == old(data)[e := RecordAfter(old(data)[e], level)]
    {
      var tabInfo: map<nat, Saved> := data[e];
      if level in tabInfo {
        var saved := tabInfo[level];
        if saved.tabindex.Index? {
          dom := dom[e := dom[e].(tabindex := saved.tabindex)];
        } else {
          dom := dom[e := dom[e].(tabindex := Absent)];
        }
        if saved.autofocus {
          dom := dom[e := dom[e].(autofocus := true)];
        }
        if level == 0 {
          data := data[e := map[]];
        } else {
          var levelToDelete: nat := level;
          ghost var put := dom;
          while levelToDelete in tabInfo
            invariant dom == put && data == old(data)
            invariant DropLevels(tabInfo, levelToDelete) == DropLevels(old(data)[e], level)
            decreases |tabInfo|
          {
            SmallerMap(tabInfo, levelToDelete);
            tabInfo := tabInfo - {levelToDelete};
            levelToDelete := levelToDelete + 1;
          }
          data := data[e := tabInfo];
        }
      }
    }

    /** Takes every element outside the context's set out of reach. */
    method Activate(c: TabbingContext)
      requires Clear()
      modifies `dom, `data, c`disabled
      ensures InForce(c)
    {
      var disabledSet := DisabledBelow(dom, c.tabbable, |dom|);
      c.disabled := disabledSet;
      RecordSet(disabledSet, c.level);
      DisableSet(disabledSet);
      AllDisabled(base, c.tabbable, c.level);
    }

    method RecordSet(listed: seq<nat>, level: nat)
      requires Clear()
      requires forall i | 0 <= i < |listed| :: listed[i] < |base|
      requires forall i, j | 0 <= i < j < |listed| :: listed[i] < listed[j]
      modifies `data
      ensures data == RecordAll(base, listed, level)
    {
      NoneDisabled(base, listed[..0], level);
      for i := 0 to |listed|
        invariant data == RecordAll(base, listed[..i], level)
      {
        OneMore(base, listed[..i], listed[i], level);
        RecordTabindex(listed[i], level);
        assert listed[..i + 1] == listed[..i] + [listed[i]];
      }
      assert listed[..|listed|] == listed;
    }

    method DisableSet(listed: seq<nat>)
      requires dom == base
      requires forall i | 0 <= i < |listed| :: listed[i] < |base|
      requires forall i, j | 0 <= i < j < |listed| :: listed[i] < listed[j]
      modifies `dom
      ensures dom == DisableAll(base, listed)
    {
      NoneDisabled(base, listed[..0], 0);
      for i := 0 to |listed|
        invariant dom == DisableAll(base, listed[..i])
      {
        var e := listed[i];
        OneMore(base, listed[..i], e, 0);
        dom := dom[e := Disable(dom[e])];
        assert listed[..i + 1] == listed[..i] + [e];
      }
      assert listed[..|listed|] == listed;
    }

    /** Puts back the listed elements one by one. */
    method PutBack(listed: seq<nat>, level: nat)
      requires dom == DisableAll(base, listed) && data == RecordAll(base, listed, level)
      requires forall i | 0 <= i < |listed| :: listed[i] < |base|
      requires forall i, j | 0 <= i < j < |listed| :: listed[i] < listed[j]
      modifies `dom, `data
      ensures dom == ForgetAll(base, listed) && data == NoRecords(|base|)
    {
      hide DisableAll, ForgetAll, RecordAll, NoRecords, Restored, Forgotten;
      NoneDisabled(base, listed[..0], level);
      for i := 0 to |listed|
        invariant dom == DisableAll(ForgetAll(base, listed[..i]), listed[i..])
        invariant data == RecordAll(base, listed[i..], level)
      {
        var e := listed[i];
        assert listed[i..] == [e] + listed[i + 1..] && listed[..i + 1] == listed[..i] + [e];
        OneFewer(base, listed[..i], e, listed[i + 1..], level);
        RecordRestores(base[e], map[], level);
        RestoreTabindex(e, level);
      }
      assert listed[..|listed|] == listed;
      NoneDisabled(ForgetAll(base, listed), listed[|listed|..], level);
      NoneDisabled(base, listed[|listed|..], level);
    }

    /** Gives the context's disabled elements their old values back. */
    method Deactivate(c: TabbingContext)
      requires InForce(c)
      modifies `dom, `data, `base
      ensures Clear() && base == Forget(old(base), c.tabbable)
    {
      AllDisabled(base, c.tabbable, c.level);
      PutBack(c.disabled, c.level);
      base := Forget(base, c.tabbable);
    }

    /** Deactivates a context if it is the active one. */
    method DeactivateContext(c: TabbingContext)
      requires c.active ==> InForce(c)
      modifies `dom, `data, `base, c`active
      ensures !c.active
      ensures if old(c.active) then Clear() && base == Forget(old(base), c.tabbable)
              else dom == old(dom) && data == old(data) && base == old(base)
    {
      if c.active {
        c.active := false;
        Deactivate(c);
      }
    }

    /** Activates a context unless it is active already or was released. */
    method ActivateContext(c: TabbingContext)
      requires !c.active && !c.released ==> Clear()
      modifies `dom, `data, c`active, c`disabled
      ensures old(c.active || c.released) ==>
        c.active == old(c.active) && c.disabled == old(c.disabled) && dom == old(dom) && data == old(data)
      ensures !old(c.active || c.released) ==> c.active && InForce(c)
    {
      if !c.active && !c.released {
        c.active := true;
        Activate(c);
      }
    }

    /** Constrains tabbing to those of the elements that can be reached. */
    method Constrain(elements: set<nat>) returns (c: TabbingContext)
      requires Valid()
      modifies this, stack`active
      ensures Valid() && stack == old(stack) + [c] && fresh(c) && created == old(created) + 1
      ensures base == Lifted(old(base), old(View()))
      ensures View() == TabbingSpec.Constrain(old(View()), old(created), Allowed(base, elements))
      ensures |dom| == |base|
      ensures forall i | 0 <= i < |dom| :: Tabbable(dom[i]) <==> Tabbable(base[i]) && i in elements
    {
      hide Overlay, Records, NoRecords, DisabledBelow, Forget;
      ghost var was := View();
      var n := |stack|;
      for i := 0 to n
        invariant n == |stack| && stack == old(stack) && created == old(created) && Ranked()
        invariant View() == was
        invariant forall j | 0 <= j < i :: !stack[j].active
        invariant if i < n then stack[n - 1].active && InForce(stack[n - 1]) && base == old(base)
                  else Clear() && base == Lifted(old(base), was)
      {
        DeactivateContext(stack[i]);
      }
      var tabbable := Allowed(dom, elements);
      c := new TabbingContext(created, |stack|, tabbable);
      created := created + 1;
      stack := stack + [c];
      ActivateContext(c);
      OverlayReaches(base, elements);
    }

    /** The height of the stack without the released contexts at its top. */
    method UnreleasedHeight() returns (n: nat)
      ensures n <= |stack| && View()[..n] == TabbingSpec.Unwind(View())
      ensures n > 0 ==> !stack[n - 1].released
      ensures n < |stack| ==> stack[|stack| - 1].released
    {
      hide TabbingSpec.Unwind;
      var toActivate := |stack| - 1;
      while toActivate >= 0 && stack[toActivate].released
        invariant -1 <= toActivate < |stack|
        invariant forall i | toActivate < i < |stack| :: stack[i].released
        decreases toActivate
      {
        toActivate := toActivate - 1;
      }
      n := toActivate + 1;
      UnwindsTo(View(), n);
    }

    /** Drops released contexts off the top and activates the one below them. */
    method Unwind()
      requires Ranked()
      requires if stack != [] && stack[|stack| - 1].active
               then InForce(stack[|stack| - 1]) && !stack[|stack| - 1].released else Clear()
      modifies `dom, `data, `stack, stack`active, stack`disabled
      ensures Valid() && Prefix(stack, old(stack))
      ensures View() == TabbingSpec.Unwind(old(View()))
    {
      hide Overlay, Records, NoRecords, DisabledBelow, Forget, TabbingSpec.Unwind;
      ghost var was := View();
      var n := UnreleasedHeight();
      stack := stack[..n];
      assert View() == was[..n];
      if n > 0 {
        ActivateContext(stack[n - 1]);
        assert View() == was[..n];
      }
    }

    /** Releases a context, in whatever order. */
    method Release(c: TabbingContext, ghost i: nat)
      requires Valid()
      requires c.released || (i < |stack| && stack[i] == c)
      modifies `dom, `data, `base, `stack, stack`active, stack`disabled, c`released
      ensures Valid() && Prefix(stack, old(stack))
      ensures old(c.released) ==> View() == old(View()) && base == old(base)
      ensures !old(c.released) ==>
        && View() == TabbingSpec.Release(old(View()), i) && c.released
        && base == if i + 1 == |old(stack)| then Lifted(old(base), old(View())) else old(base)
    {
      hide Overlay, Records, NoRecords, DisabledBelow, Forget, TabbingSpec.Unwind;
      if !c.released {
        ghost var was := View();
        DeactivateContext(c);
        c.released := true;
        assert View() == was[i := was[i].(released := true)] by {
          assert forall j | 0 <= j < |stack| && stack[j] == c :: j == i;
        }
        Unwind();
      }
    }
  }
}

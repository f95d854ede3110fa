/**
 The inspectors: how a block, an include and an exclude list decide whether an operation is
 blocked and whether its event is logged.
 */
module Verdict {
  import opened Matching

  const STATUS_SUCCESS: nat := 0
  const STATUS_ACCESS_DENIED: nat := 0xC000_0022

  datatype Lists = Lists(block: seq<Group>, incl: seq<Group>, excl: seq<Group>) {
    /** What the loader guarantees: no group is empty. */
    ghost predicate Loaded() {
      && (forall k :: 0 <= k < |block| ==> block[k].items != [])
      && (forall k :: 0 <= k < |incl| ==> incl[k].items != [])
      && (forall k :: 0 <= k < |excl| ==> excl[k].items != [])
    }
  }

  datatype Outcome = Outcome(status: nat, skipLogging: bool, matchId: nat)

  /** The group a matcher stops at, if any. */
  ghost function Hit(kind: Kind, groups: seq<Group>, ev: Event): (g: Group)
    requires AnyMatches(kind, groups, ev)
    ensures exists k: nat :: FirstMatch(kind, groups, ev, k) && g == groups[k]
  {
    FirstExists(kind, groups, ev);
    var k: nat :| FirstMatch(kind, groups, ev, k);
    groups[k]
  }

  lemma FirstExists(kind: Kind, groups: seq<Group>, ev: Event)
    requires AnyMatches(kind, groups, ev)
    ensures exists k: nat :: FirstMatch(kind, groups, ev, k)
  {
    var k: nat :| k < |groups| && GroupMatches(kind, groups[k], ev);
    FirstUpTo(kind, groups, ev, k);
  }

  lemma {:induction false} FirstUpTo(kind: Kind, groups: seq<Group>, ev: Event, k: nat)
    requires k < |groups| && GroupMatches(kind, groups[k], ev)
    ensures exists j: nat :: FirstMatch(kind, groups, ev, j)
  {
    if j: nat :| j < k && GroupMatches(kind, groups[j], ev) {
      FirstUpTo(kind, groups, ev, j);
    } else {
      assert FirstMatch(kind, groups, ev, k);
    }
  }

  /** Groups behind the first that matches do not count. */
  lemma HitIsFirst(kind: Kind, before: seq<Group>, g: Group, behind: seq<Group>, ev: Event)
    requires !AnyMatches(kind, before, ev) && GroupMatches(kind, g, ev)
    ensures AnyMatches(kind, before + [g] + behind, ev) && Hit(kind, before + [g] + behind, ev) == g
  {
    var groups := before + [g] + behind;
    assert groups[|before|] == g;
    forall j | 0 <= j < |before|
      ensures !GroupMatches(kind, groups[j], ev)
    {
      assert groups[j] == before[j];
    }
    assert FirstMatch(kind, groups, ev, |before|);
    var k: nat :| FirstMatch(kind, groups, ev, k) && Hit(kind, groups, ev) == groups[k];
    FirstMatchUnique(kind, groups, ev, k, |before|);
  }

  ghost function HitId(kind: Kind, groups: seq<Group>, ev: Event): nat {
    if AnyMatches(kind, groups, ev) then Hit(kind, groups, ev).id else 0
  }

  /** The block status: the group's action, or access denied if it has none. */
  ghost function BlockStatus(kind: Kind, groups: seq<Group>, ev: Event): nat {
    if !AnyMatches(kind, groups, ev) then STATUS_SUCCESS
    else if Hit(kind, groups, ev).actions == 0 then STATUS_ACCESS_DENIED
    else Hit(kind, groups, ev).actions
  }

  /** The documented policy: block lists block, include lists log, exclude lists drop what neither names. */
  ghost function Policy(kind: Kind, ls: Lists, ev: Event): Outcome {
    var b, i, e := AnyMatches(kind, ls.block, ev), AnyMatches(kind, ls.incl, ev), AnyMatches(kind, ls.excl, ev);
    Outcome(
      BlockStatus(kind, ls.block, ev),
      e && !b && !i,
      if b then HitId(kind, ls.block, ev) else if i then HitId(kind, ls.incl, ev) else HitId(kind, ls.excl, ev))
  }

  /** A group with id 0 stands for "no match" in the inspectors' out-parameters. */
  ghost predicate NamelessHit(kind: Kind, groups: seq<Group>, ev: Event) {
    AnyMatches(kind, groups, ev) && HitId(kind, groups, ev) == 0
  }

  lemma ListMatchIsHit(kind: Kind, groups: seq<Group>, ev: Event, id: nat, actions: nat)
    requires exists k: nat :: FirstMatch(kind, groups, ev, k) && id == groups[k].id && actions == groups[k].actions
    ensures AnyMatches(kind, groups, ev)
    ensures id == Hit(kind, groups, ev).id && actions == Hit(kind, groups, ev).actions
  {
    var k: nat :| FirstMatch(kind, groups, ev, k) && id == groups[k].id && actions == groups[k].actions;
    var j: nat :| FirstMatch(kind, groups, ev, j) && Hit(kind, groups, ev) == groups[j];
    FirstMatchUnique(kind, groups, ev, j, k);
  }

  /** A matcher's result in terms of the group it stops at. */
  method Match(kind: Kind, groups: seq<Group>, ev: Event) returns (matched: bool, id: nat, actions: nat)
    requires forall k :: 0 <= k < |groups| ==> groups[k].items != []
    ensures matched <==> AnyMatches(kind, groups, ev)
    ensures id == HitId(kind, groups, ev)
    ensures matched ==> actions == Hit(kind, groups, ev).actions
  {
    matched, id, actions := ListMatch(kind, groups, ev);
    if matched {
      ListMatchIsHit(kind, groups, ev, id, actions);
    }
  }

  /** InspectFsCreateEvent, InspectFsSetEvent and InspectRegistryEvent: an include hit returns at once. */
  method Inspect(kind: Kind, ls: Lists, ev: Event) returns (o: Outcome)
    requires ls.Loaded()
    ensures o.status == BlockStatus(kind, ls.block, ev)
    ensures var i, e := AnyMatches(kind, ls.incl, ev), AnyMatches(kind, ls.excl, ev);
      && (o.skipLogging <==> e && !i && HitId(kind, ls.block, ev) == 0)
      && (o == Policy(kind, ls, ev) <==>
        !(NamelessHit(kind, ls.block, ev) && (if i then HitId(kind, ls.incl, ev) != 0 else e)))
  {
    var status, skip, matchId := STATUS_SUCCESS, false, 0;
    if |ls.block| > 0 {
      var matched, id, actions := Match(kind, ls.block, ev);
      if matched {
        matchId := id;
        status := if actions == 0 then STATUS_ACCESS_DENIED else actions;
      }
    }
    if |ls.incl| > 0 {
      var matched, id, actions := Match(kind, ls.incl, ev);
      if matched {
        if matchId == 0 {
          matchId := id;
        }
        return Outcome(status, false, matchId);
      }
    }
    if !skip && |ls.excl| > 0 && matchId == 0 {
      var matched, id, actions := Match(kind, ls.excl, ev);
      if matched {
        skip := true;
        matchId := id;
      }
    }
    return Outcome(status, skip, matchId);
  }

  /** InspectProcessCreation: whether an include list hit is read off the match id. */
  method InspectProcess(ls: Lists, ev: Event) returns (o: Outcome)
    requires ls.Loaded()
    ensures o.status == BlockStatus(Process, ls.block, ev)
    ensures var b, e := AnyMatches(Process, ls.block, ev), AnyMatches(Process, ls.excl, ev);
      && (o.skipLogging <==> e && HitId(Process, ls.incl, ev) == 0 && HitId(Process, ls.block, ev) == 0)
      && (o == Policy(Process, ls, ev) <==>
        && !(NamelessHit(Process, ls.block, ev) && (e || HitId(Process, ls.incl, ev) != 0))
        && !(!b && NamelessHit(Process, ls.incl, ev) && e))
  {
    var status, skip, matchId := STATUS_SUCCESS, false, 0;
    if |ls.block| > 0 {
      var matched, id, actions := Match(Process, ls.block, ev);
      if matched {
        matchId := id;
        status := if actions == 0 then STATUS_ACCESS_DENIED else actions;
      }
    }
    if |ls.incl| > 0 {
      var matched, id, actions := Match(Process, ls.incl, ev);
      skip := false;
      if matchId == 0 {
        matchId := id;
      }
    }
    if !skip && |ls.excl| > 0 && matchId == 0 {
      var matched, id, actions := Match(Process, ls.excl, ev);
      if matched {
        skip := true;
        matchId := id;
      }
    }
    return Outcome(status, skip, matchId);
  }

  /** InspectNetworkEvent has no block list. */
  method InspectNetwork(incl: seq<Group>, excl: seq<Group>, ev: Event) returns (o: Outcome)
    requires Lists([], incl, excl).Loaded()
    ensures o == Policy(Network, Lists([], incl, excl), ev)
  {
    if |incl| > 0 {
      var matched, id, actions := Match(Network, incl, ev);
      if matched {
        return Outcome(STATUS_SUCCESS, false, id);
      }
    }
    if |excl| > 0 {
      var matched, id, actions := Match(Network, excl, ev);
      if matched {
        return Outcome(STATUS_SUCCESS, true, id);
      }
    }
    return Outcome(STATUS_SUCCESS, false, 0);
  }

  /** The lists the inspector of this kind of event looks at: there is no block list for network events. */
  function Relevant(kind: Kind, ls: Lists): Lists {
    if kind.Network? then ls.(block := []) else ls
  }

  /** The inspector a callback calls for its kind of event. */
  method InspectEvent(kind: Kind, ls: Lists, ev: Event) returns (o: Outcome)
    requires Relevant(kind, ls).Loaded()
    ensures !NamelessHit(kind, Relevant(kind, ls).block, ev) && !NamelessHit(kind, ls.incl, ev) ==>
      o == Policy(kind, Relevant(kind, ls), ev)
  {
    match kind {
      case Process => o := InspectProcess(ls, ev);
      case Network => o := InspectNetwork(ls.incl, ls.excl, ev);
      case _ => o := Inspect(kind, ls, ev);
    }
  }
}

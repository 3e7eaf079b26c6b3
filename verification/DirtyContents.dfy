/** What the dirty lists of a transaction and its ancestors map, over every run.

The merged list that a commit leaves is meant to map exactly the dirty pages in use. It does as
long as every run given back is listed by the transaction itself and by none of its ancestors.
 */
module DirtyContents {
  import opened DirtyList
  import opened DirtyRoom

  /** The lists map exactly the dirty pages in use, to the memory pages with their newest contents. */
  ghost predicate AsMeant(l: Ledger) {
    Have(l) == l.used
  }

  /** A give-back hits a page that the transaction lists itself and no ancestor does. */
  ghost predicate Proper(l: Ledger, u: Use)
    decreases u
  {
    match u
    case GiveBack(pg) => pg in View(l.own) && pg !in l.above
    case Child(uses, commits) => commits ==> AllProper(Begin(l), uses)
    case _ => true
  }

  ghost predicate AllProper(l: Ledger, us: seq<Use>)
    decreases us
  {
    us == [] || (Proper(l, us[0]) && AllProper(After(l, us[0]), us[1..]))
  }

  /** Pages listed that are not in use. */
  ghost function Stale(l: Ledger): set<nat> {
    Have(l).Keys - l.used.Keys
  }

  lemma StaleSets(l: Ledger, u: Use)
    requires Ascending(l.own) && Possible(l, u) && !u.Child?
    ensures !u.GiveBack? ==> Stale(After(l, u)) == Stale(l) - {u.pg}
    ensures u.GiveBack? && u.pg in Have(l) ==>
      Stale(After(l, u)) >= (if Proper(l, u) then Stale(l) else {u.pg})
  {
    hide View, Listing, Dropping, Picked, Have;
    if u.GiveBack? {
      Unlisted(l, u.pg);
      InHave(l, u.pg);
      InHave(After(l, u), u.pg);
    } else {
      Listed(l, u);
    }
  }

  lemma ProperAsMeant(l: Ledger, u: Use)
    requires Ascending(l.own) && Possible(l, u) && !u.Child? && AsMeant(l) && Proper(l, u)
    ensures AsMeant(After(l, u))
  {
    hide View, Listing, Dropping, Picked, Have;
    if u.GiveBack? { Unlisted(l, u.pg); } else { Listed(l, u); }
  }

  /** One use: a give-back that is not proper spoils what the lists map, nothing else does. */
  lemma {:induction false} OneAsMeant(l: Ledger, u: Use)
    requires Ascending(l.own) && Possible(l, u)
    ensures AsMeant(l) && Proper(l, u) ==> AsMeant(After(l, u))
    ensures !Repair(l, u) && (Stale(l) != {} || (AsMeant(l) && !Proper(l, u))) ==> Stale(After(l, u)) != {}
    decreases u
  {
    hide View, Listing, Dropping, Picked, Have, Stale;
    if u.Child? {
      SameKeys(l);
      Sound(l, u);
      ContentsAfter(Begin(l), u.uses);
      SameStale(l, Begin(l));
      if u.commits { SameStale(After(l, u), AfterAll(Begin(l), u.uses)); }
    } else {
      if AsMeant(l) && Proper(l, u) { ProperAsMeant(l, u); }
      StaleSets(l, u);
      StaleIs(l, u.pg);
    }
  }

  lemma SameStale(l: Ledger, l': Ledger)
    requires Have(l) == Have(l') && l.used == l'.used
    ensures Stale(l) == Stale(l')
  {
  }

  lemma StaleIs(l: Ledger, p: nat)
    ensures p in Stale(l) <==> p in Have(l) && p !in l.used
  {
  }

  lemma {:induction false} ContentsAfter(l: Ledger, us: seq<Use>)
    requires Ascending(l.own) && AllPossible(l, us)
    ensures AsMeant(l) && AllProper(l, us) ==> AsMeant(AfterAll(l, us))
    ensures !Repairs(l, us) && (Stale(l) != {} || (AsMeant(l) && !AllProper(l, us))) ==>
      Stale(AfterAll(l, us)) != {}
    decreases us
  {
    hide After, Possible, AsMeant, Proper, Repair, Stale;
    if us != [] {
      Sound(l, us[0]);
      OneAsMeant(l, us[0]);
      ContentsAfter(After(l, us[0]), us[1..]);
    }
  }

  /** Every run of a transaction and its children: if all give-backs are proper, the lists stay as
      they are meant; without repairs, only then. */
  lemma MergedAsMeant(l: Ledger, us: seq<Use>)
    requires Ascending(l.own) && AllPossible(l, us) && AsMeant(l)
    ensures AllProper(l, us) ==> AsMeant(AfterAll(l, us))
    ensures !Repairs(l, us) ==> (AsMeant(AfterAll(l, us)) <==> AllProper(l, us))
  {
    hide AfterAll, AllPossible, AllProper, Repairs, Have;
    ContentsAfter(l, us);
  }

  /** One use of pages that are listed as they are meant. */
  lemma OneUseAsMeant(l: Ledger, u: Use)
    requires Ascending(l.own) && Possible(l, u) && AsMeant(l) && !u.Child?
    ensures AsMeant(After(l, u)) <==> Proper(l, u)
  {
    OneAsMeant(l, u);
  }

  /** A child copies a page x of its parent, allocates a page z, and frees a run y that its parent has
      put between them. The entry of z goes: the length is one too large, z is missing from the merged
      list, and y, which is free again, is still there. */
  lemma ParentRunGivenBack(l: Ledger, x: nat, y: nat, z: nat, c: int, d: int)
    requires 0 < x < y < z && l.own == [] && l.above == l.used && l.room > 0
    requires x in l.used && y in l.used && z !in l.used
    ensures var us := [Touch(x, c), Allocate(z, d), GiveBack(y)];
            && AllPossible(l, us) && Excess(AfterAll(l, us)) == Excess(l) + 1
            && AsMeant(l) && !AsMeant(AfterAll(l, us))
  {
    var u, v, w := Touch(x, c), Allocate(z, d), GiveBack(y);
    var l1 := After(l, u);
    var l2 := After(l1, v);
    ThreeUses(l, x, y, z, c, d);
    assert AsMeant(l) by { assert View([]) == map[]; }
    hide Possible, Drift, Repair, Proper, Have, After;
    Unrolled(l2, w, []);
    Unrolled(l1, v, [w]);
    Unrolled(l, u, [v, w]);
    assert [u] + [v, w] == [u, v, w] && [v] + [w] == [v, w] && [w] + [] == [w];
    hide AllPossible, DriftAll, Repairs, AllProper, AfterAll, Excess;
    RoomCountsUnion(l, [u, v, w]);
    MergedAsMeant(l, [u, v, w]);
  }

  lemma ThreeUses(l: Ledger, x: nat, y: nat, z: nat, c: int, d: int)
    requires 0 < x < y < z && l.own == [] && l.above == l.used && l.room > 0
    requires x in l.used && y in l.used && z !in l.used
    ensures var u, v, w := Touch(x, c), Allocate(z, d), GiveBack(y);
            var l1 := After(l, u); var l2 := After(l1, v);
            && Possible(l, u) && Drift(l, u) == 0 && !Repair(l, u)
            && Possible(l1, v) && Drift(l1, v) == 0 && !Repair(l1, v)
            && Possible(l2, w) && Drift(l2, w) == 1 && !Repair(l2, w) && !Proper(l2, w)
  {
    assert View([]) == map[];
    OneListed(x, c, z, d);
    WrongEntryGoes(x, y, z, c, d);
    hide View, Listing, Dropping, Picked;
  }

  lemma OneListed(x: nat, a: int, y: nat, b: int)
    requires 0 < x < y
    ensures Listing([], x, a) == [Entry(x, a)] && Listing([Entry(x, a)], y, b) == [Entry(x, a), Entry(y, b)]
    ensures View([Entry(x, a)]) == map[x := a]
  {
    var l := [Entry(x, a)];
    assert l[..0] == [];
    assert Position(l, y, 2);
    PositionUnique(l, y, 2);
  }

  lemma Unrolled(l: Ledger, u: Use, us: seq<Use>)
    ensures AllPossible(l, [u] + us) <==> Possible(l, u) && AllPossible(After(l, u), us)
    ensures DriftAll(l, [u] + us) == Drift(l, u) + DriftAll(After(l, u), us)
    ensures Repairs(l, [u] + us) <==> Repair(l, u) || Repairs(After(l, u), us)
    ensures AllProper(l, [u] + us) <==> Proper(l, u) && AllProper(After(l, u), us)
  {
    hide Possible, Drift, Repair, Proper, After;
    assert ([u] + us)[1..] == us;
  }
}

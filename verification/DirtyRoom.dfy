/** The count of free dirty-list slots over the life of a write transaction and its children.

A transaction keeps its room: the slots left in its dirty list and its ancestors' together. When
a child of a top-level transaction commits, the length of the merged list is taken from it.
Giving back a dirty run does not restore the room, and takes whatever entry the search finds
out of the transaction's own list: if only an ancestor lists the run, an entry of another page
goes. The theorems say, for every life of a top-level transaction with children to any depth,
when that length is right.
 */
module DirtyRoom {
  import opened DirtyList
  import opened NestedCommit

  /** What a transaction sees: `above` is what the lists of its ancestors map, `own` is its own
      list, `used` maps the dirty pages in use to the memory pages with their newest contents. */
  datatype Ledger = Ledger(above: map<nat, int>, own: seq<Entry>, used: map<nat, int>, room: int)

  /** Allocating a page, copying an ancestor's dirty page, giving back a dirty run, and the whole
      life of a child that commits or aborts. */
  datatype Use =
    | Allocate(pg: nat, mem: int)
    | Touch(pg: nat, mem: int)
    | GiveBack(pg: nat)
    | Child(uses: seq<Use>, commits: bool)

  /** What the lists map, with a transaction's own entries over those of its ancestors. */
  ghost function Have(l: Ledger): map<nat, int> {
    l.above + View(l.own)
  }

  /** A child starts with an empty list. */
  ghost function Begin(l: Ledger): Ledger {
    Ledger(Have(l), [], l.used, l.room)
  }

  /** The list of a child that commits is merged in. */
  ghost function Joined(l: Ledger, child: Ledger): Ledger {
    Ledger(l.above, Merged(l.own, child.own), child.used, child.room)
  }

  ghost function Listing(l: seq<Entry>, pg: nat, mem: int): seq<Entry> {
    Inserted(l, PositionOf(l, pg), Entry(pg, mem))
  }

  /** The insertion refuses a page that is listed already; its error code is ignored. */
  ghost function After(l: Ledger, u: Use): Ledger
    decreases u
  {
    match u
    case Allocate(pg, mem) =>
      var own := if pg in View(l.own) then l.own else Listing(l.own, pg, mem);
      l.(own := own, used := l.used[pg := mem], room := l.room - 1)
    case Touch(pg, mem) => l.(own := Listing(l.own, pg, mem), used := l.used[pg := mem])
    case GiveBack(pg) => l.(own := if l.own == [] then [] else Dropping(l.own, pg), used := l.used - {pg})
    case Child(uses, commits) => if commits then Joined(l, AfterAll(Begin(l), uses)) else l
  }

  ghost function AfterAll(l: Ledger, us: seq<Use>): Ledger
    decreases us
  {
    if us == [] then l else AfterAll(After(l, us[0]), us[1..])
  }

  /** Pages are allocated while there is room. A page is copied when it is dirty and not in the
      transaction's own list. A run is given back when it is dirty, whoever lists it; the leaf that
      refers to it has been touched just before, so the list is not empty. */
  ghost predicate Possible(l: Ledger, u: Use)
    decreases u
  {
    match u
    case Allocate(pg, _) => pg > 0 && l.room > 0 && pg !in l.used
    case Touch(pg, _) => pg > 0 && pg in l.used && pg !in View(l.own)
    case GiveBack(pg) => pg > 0 && pg in l.used && l.own != []
    case Child(uses, _) => AllPossible(Begin(l), uses)
  }

  ghost predicate AllPossible(l: Ledger, us: seq<Use>)
    decreases us
  {
    us == [] || (Possible(l, us[0]) && AllPossible(After(l, us[0]), us[1..]))
  }

  // What one use does to the pages listed.

  lemma Listed(l: Ledger, u: Use)
    requires Ascending(l.own) && Possible(l, u) && (u.Allocate? || u.Touch?)
    ensures Ascending(After(l, u).own)
    ensures Have(After(l, u)).Keys == Have(l).Keys + {u.pg}
    ensures u.Touch? || u.pg !in Have(l) ==> Have(After(l, u)) == Have(l)[u.pg := u.mem]
  {
    hide View, Listing;
    if u.pg !in View(l.own) {
      ListingView(l.own, u.pg, u.mem);
      Over(l.above, View(l.own), u.pg, u.mem);
    }
  }

  lemma Over(a: map<nat, int>, b: map<nat, int>, p: nat, m: int)
    ensures a + b[p := m] == (a + b)[p := m]
  {
  }

  lemma ListingView(l: seq<Entry>, pg: nat, mem: int)
    requires Ascending(l) && pg > 0 && pg !in View(l)
    ensures Ascending(Listing(l, pg, mem)) && View(Listing(l, pg, mem)) == View(l)[pg := mem]
  {
    hide View, PositionOf, Inserted;
    ViewKeys(l, pg);
    InsertedView(l, PositionOf(l, pg), Entry(pg, mem));
  }

  lemma Unlisted(l: Ledger, pg: nat)
    requires Ascending(l.own) && Possible(l, GiveBack(pg))
    ensures var l', p := After(l, GiveBack(pg)), Picked(l.own, pg).mid;
            && Ascending(l'.own) && p in View(l.own) && (p == pg <==> pg in View(l.own))
            && Have(l').Keys == (if p in l.above then Have(l).Keys else Have(l).Keys - {p})
            && (p !in l.above ==> Have(l') == Have(l) - {p})
  {
    hide View, PositionOf, Dropping, Picked;
    DroppingView(l.own, pg);
    var p := Picked(l.own, pg).mid;
    assert (l.above + View(l.own)).Keys == l.above.Keys + View(l.own).Keys;
  }

  lemma Merging(l: Ledger, child: Ledger)
    requires Ascending(l.own) && Ascending(child.own) && child.above == Have(l)
    ensures Ascending(Joined(l, child).own) && Have(Joined(l, child)) == Have(child)
  {
    hide View, Merged;
    MergedAscending(l.own, child.own);
    MergedView(l.own, child.own);
  }

  lemma {:induction false} Sound(l: Ledger, u: Use)
    requires Ascending(l.own) && Possible(l, u)
    ensures Ascending(After(l, u).own) && After(l, u).above == l.above
    ensures u.Child? ==>
      var child := AfterAll(Begin(l), u.uses);
      Ascending(child.own) && child.above == Have(l) && (u.commits ==> Have(After(l, u)) == Have(child))
    decreases u
  {
    hide View, Merged, Listing, Dropping, Have;
    match u {
      case Allocate(_, _) => Listed(l, u);
      case Touch(_, _) => Listed(l, u);
      case GiveBack(pg) => Unlisted(l, pg);
      case Child(uses, _) =>
        AllSound(Begin(l), uses);
        Merging(l, AfterAll(Begin(l), uses));
    }
  }

  lemma {:induction false} AllSound(l: Ledger, us: seq<Use>)
    requires Ascending(l.own) && AllPossible(l, us)
    ensures Ascending(AfterAll(l, us).own) && AfterAll(l, us).above == l.above
    decreases us
  {
    hide After, Possible;
    if us != [] {
      Sound(l, us[0]);
      AllSound(After(l, us[0]), us[1..]);
    }
  }

  // The length.

  /** By how much the length computed from the room exceeds the number of pages listed. */
  ghost function Excess(l: Ledger): int {
    UM_MAX - l.room - |Have(l).Keys|
  }

  /** What one use adds to the excess. */
  ghost function Drift(l: Ledger, u: Use): int
    decreases u
  {
    match u
    case Allocate(pg, _) => if pg in Have(l) then 1 else 0
    case Touch(pg, _) => if pg in Have(l) then 0 else -1
    case GiveBack(pg) => if l.own == [] || Picked(l.own, pg).mid in l.above then 0 else 1
    case Child(uses, commits) => if commits then DriftAll(Begin(l), uses) else 0
  }

  ghost function DriftAll(l: Ledger, us: seq<Use>): int
    decreases us
  {
    if us == [] then 0 else Drift(l, us[0]) + DriftAll(After(l, us[0]), us[1..])
  }

  lemma SameKeys(l: Ledger)
    ensures Excess(Begin(l)) == Excess(l) && Have(Begin(l)) == Have(l)
  {
    assert View([]) == map[];
    hide View;
    assert Have(l) + map[] == Have(l);
  }

  lemma {:induction false} OneUse(l: Ledger, u: Use)
    requires Ascending(l.own) && Possible(l, u)
    ensures Excess(After(l, u)) == Excess(l) + Drift(l, u)
    decreases u
  {
    hide View, Merged, Listing, Dropping, Picked, Have;
    Sound(l, u);
    match u {
      case Allocate(pg, _) => Listed(l, u); OneMore(Have(l).Keys, pg);
      case Touch(pg, _) => Listed(l, u); OneMore(Have(l).Keys, pg);
      case GiveBack(pg) => Unlisted(l, pg); InHave(l, Picked(l.own, pg).mid);
      case Child(uses, _) =>
        SameKeys(l);
        RoomCountsUnion(Begin(l), uses);
    }
  }

  lemma OneMore(s: set<nat>, p: nat)
    ensures |s + {p}| == |s| + if p in s then 0 else 1
  {
    assert p in s ==> s + {p} == s;
  }

  lemma InHave(l: Ledger, p: nat)
    ensures p in Have(l) <==> p in l.above || p in View(l.own)
  {
  }

  /** Every run of a transaction: its drifts add up. */
  lemma {:induction false} RoomCountsUnion(l: Ledger, us: seq<Use>)
    requires Ascending(l.own) && AllPossible(l, us)
    ensures Excess(AfterAll(l, us)) == Excess(l) + DriftAll(l, us)
    decreases us
  {
    hide Possible, After, Excess, Drift;
    if us != [] {
      OneUse(l, us[0]);
      Sound(l, us[0]);
      RoomCountsUnion(After(l, us[0]), us[1..]);
    }
  }

  /** Dirty pages in use that no list has an entry for. */
  ghost function Missing(l: Ledger): set<nat> {
    l.used.Keys - Have(l).Keys
  }

  lemma MissingSets(l: Ledger, u: Use)
    requires Ascending(l.own) && Possible(l, u) && !u.Child?
    ensures !u.GiveBack? ==> Missing(After(l, u)) <= Missing(l) - {u.pg}
    ensures u.Touch? && u.pg !in Have(l) ==> u.pg in Missing(l)
    ensures u.GiveBack? ==>
      var p := Picked(l.own, u.pg).mid;
      Missing(After(l, u)) <= if p in l.above then Missing(l) else Missing(l) + {p}
  {
    hide View, Merged, Listing, Dropping, Picked, Have;
    if u.GiveBack? { Unlisted(l, u.pg); } else { Listed(l, u); }
  }

  lemma {:induction false} MissingAfter(l: Ledger, u: Use)
    requires Ascending(l.own) && Possible(l, u)
    ensures |Missing(After(l, u))| <= |Missing(l)| + Drift(l, u)
    decreases u
  {
    hide View, Merged, Listing, Dropping, Picked, Have, Missing;
    var m, m' := Missing(l), Missing(After(l, u));
    match u {
      case Allocate(pg, _) => MissingSets(l, u); Fewer(m', m - {pg});
      case Touch(pg, _) => MissingSets(l, u); Fewer(m', m - {pg});
      case GiveBack(pg) =>
        MissingSets(l, u);
        var p := Picked(l.own, pg).mid;
        Fewer(m', if p in l.above then m else m + {p});
      case Child(uses, commits) =>
        MissingAtMost(Begin(l), uses);
        MissingInChild(l, u);
    }
  }

  lemma MissingInChild(l: Ledger, u: Use)
    requires Ascending(l.own) && Possible(l, u) && u.Child?
    ensures Missing(Begin(l)) == Missing(l)
    ensures u.commits ==> Missing(After(l, u)) == Missing(AfterAll(Begin(l), u.uses))
  {
    hide View, Merged, Have, AfterAll, AllPossible;
    SameKeys(l);
    Sound(l, u);
  }

  lemma {:induction false} MissingAtMost(l: Ledger, us: seq<Use>)
    requires Ascending(l.own) && AllPossible(l, us)
    ensures |Missing(AfterAll(l, us))| <= |Missing(l)| + DriftAll(l, us)
    decreases us
  {
    hide Possible, After, Drift, Missing;
    if us != [] {
      MissingAfter(l, us[0]);
      Sound(l, us[0]);
      MissingAtMost(After(l, us[0]), us[1..]);
    }
  }

  lemma Fewer(a: set<nat>, b: set<nat>)
    requires a <= b
    ensures |a| <= |b|
  {
    assert b == a + (b - a);
  }

  /** Over every run, the length taken from the room is never too small: it covers the pages listed
      and those whose entries were lost. */
  lemma NeverShort(l: Ledger, us: seq<Use>)
    requires Ascending(l.own) && AllPossible(l, us) && |Missing(l)| <= Excess(l)
    ensures |Missing(AfterAll(l, us))| <= Excess(AfterAll(l, us))
  {
    hide AllPossible, AfterAll, DriftAll, Excess, Missing;
    MissingAtMost(l, us);
    RoomCountsUnion(l, us);
  }

  /** So no insertion finds the list full. */
  lemma NeverFull(l: Ledger, u: Use)
    requires Ascending(l.own) && Possible(l, u) && (u.Allocate? || u.Touch?)
    requires |Missing(l)| <= Excess(l) && l.room >= 0
    ensures |l.own| < UM_MAX
  {
    hide View;
    ViewSize(l.own);
    var k, h := View(l.own).Keys, Have(l).Keys;
    assert |View(l.own)| == |k|;
    Fewer(k, h);
    if u.Touch? {
      OneMore(k, u.pg);
      if u.pg in h {
        Fewer(k + {u.pg}, h);
      } else {
        Fewer({u.pg}, Missing(l));
      }
    }
  }

  /** A use of a page whose listing is wrong already: a page still listed is allocated, or a page
      that is listed nowhere is copied or given back. Such a use may make good for the fault. */
  ghost predicate Repair(l: Ledger, u: Use)
    decreases u
  {
    match u
    case Allocate(pg, _) => pg in Have(l)
    case Touch(pg, _) => pg !in Have(l)
    case GiveBack(pg) => pg !in Have(l)
    case Child(uses, commits) => commits && Repairs(Begin(l), uses)
  }

  ghost predicate Repairs(l: Ledger, us: seq<Use>)
    decreases us
  {
    us != [] && (Repair(l, us[0]) || Repairs(After(l, us[0]), us[1..]))
  }

  /** An entry is taken out of a list that no ancestor's list has. */
  ghost predicate Loses(l: Ledger, u: Use)
    decreases u
  {
    match u
    case GiveBack(pg) => l.own != [] && Picked(l.own, pg).mid !in l.above
    case Child(uses, commits) => commits && LosesAny(Begin(l), uses)
    case _ => false
  }

  ghost predicate LosesAny(l: Ledger, us: seq<Use>)
    decreases us
  {
    us != [] && (Loses(l, us[0]) || LosesAny(After(l, us[0]), us[1..]))
  }

  lemma {:induction false} DriftUp(l: Ledger, u: Use)
    requires !Repair(l, u)
    ensures Drift(l, u) >= 0 && (Drift(l, u) == 0 <==> !Loses(l, u))
    decreases u
  {
    hide View, Merged, Listing, Dropping, Picked, Have;
    if u.Child? && u.commits { DriftsUp(Begin(l), u.uses); }
  }

  lemma {:induction false} DriftsUp(l: Ledger, us: seq<Use>)
    requires !Repairs(l, us)
    ensures DriftAll(l, us) >= 0 && (DriftAll(l, us) == 0 <==> !LosesAny(l, us))
    decreases us
  {
    hide After, Drift, Loses, Repair;
    if us != [] {
      DriftUp(l, us[0]);
      DriftsUp(After(l, us[0]), us[1..]);
    }
  }

  // The life of a top-level transaction.

  /** mdb_txn_renew0. */
  ghost function Start(): Ledger {
    Ledger(map[], [], map[], UM_MAX)
  }

  /** The length taken from the room of a child that commits is the length of the merged list. */
  ghost predicate Settles(l: Ledger, u: Use) {
    u.Child? && u.commits ==>
      var child := AfterAll(Begin(l), u.uses);
      UM_MAX - child.room == |Merged(l.own, child.own)|
  }

  /** A life ends with the first commit that does not settle: an assertion fails there. Only children
      copy dirty pages. */
  ghost predicate Life(l: Ledger, us: seq<Use>)
    decreases us
  {
    us == [] ||
    (!us[0].Touch? && Possible(l, us[0]) && (Settles(l, us[0]) ==> Life(After(l, us[0]), us[1..])))
  }

  ghost predicate AllSettle(l: Ledger, us: seq<Use>)
    decreases us
  {
    us == [] || (Settles(l, us[0]) && AllSettle(After(l, us[0]), us[1..]))
  }

  ghost predicate SomeCommit(us: seq<Use>) {
    exists i :: 0 <= i < |us| && us[i].Child? && us[i].commits
  }

  /** As long as a commit is still to come, no use lets the length drift. */
  ghost predicate Quiet(l: Ledger, us: seq<Use>)
    decreases us
  {
    us == [] || ((SomeCommit(us) ==> Drift(l, us[0]) == 0) && Quiet(After(l, us[0]), us[1..]))
  }

  /** A top-level transaction whose list has an entry for every dirty page in use. */
  ghost predicate Top(l: Ledger) {
    l.above == map[] && Ascending(l.own) && Missing(l) == {} && Excess(l) >= 0
  }

  lemma StartTop()
    ensures Top(Start()) && Excess(Start()) == 0
  {
    assert View([]) == map[];
    var none: map<nat, int> := map[];
    assert none + none == none && none.Keys == {};
  }

  lemma SettlesIff(l: Ledger, u: Use)
    requires Top(l) && Possible(l, u) && u.Child? && u.commits
    ensures Settles(l, u) <==> Excess(After(l, u)) == 0
  {
    hide View, Merged, AfterAll, AllPossible, Missing, Have;
    Sound(l, u);
    OwnSize(After(l, u));
  }

  lemma OwnSize(l: Ledger)
    requires l.above == map[] && Ascending(l.own)
    ensures |Have(l).Keys| == |l.own|
  {
    hide View;
    ViewSize(l.own);
    assert Have(l) == View(l.own);
    assert |View(l.own).Keys| == |View(l.own)|;
  }

  /** A give-back by a top-level transaction always drifts, every other use does at most. */
  lemma TopStep(l: Ledger, u: Use)
    requires Top(l) && Possible(l, u) && !u.Touch?
    ensures Excess(After(l, u)) == Excess(l) + Drift(l, u) && Drift(l, u) >= 0
    ensures u.GiveBack? ==> Drift(l, u) == 1
    ensures Settles(l, u) ==> Top(After(l, u))
  {
    Sound(l, u);
    OneUse(l, u);
    MissingAfter(l, u);
    if u.GiveBack? {
      MissingSets(l, u);
      Unlisted(l, u.pg);
      InHave(l, u.pg);
    }
    if u.Child? && u.commits { SettlesIff(l, u); }
    hide After, Have, Drift, Excess, Settles, Possible;
    assert |Missing(l)| == 0;
  }

  lemma {:induction false} ExcessStays(l: Ledger, us: seq<Use>)
    requires Top(l) && Life(l, us) && Excess(l) > 0 && SomeCommit(us)
    ensures !AllSettle(l, us)
    decreases us
  {
    hide After, Drift, Excess, Possible, Missing;
    if Settles(l, us[0]) {
      TopStep(l, us[0]);
      if us[0].Child? && us[0].commits {
        SettlesIff(l, us[0]);
      } else {
        CommitsLater(us);
        ExcessStays(After(l, us[0]), us[1..]);
      }
    }
  }

  lemma CommitsLater(us: seq<Use>)
    requires us != []
    ensures SomeCommit(us) <==> (us[0].Child? && us[0].commits) || SomeCommit(us[1..])
  {
    if SomeCommit(us[1..]) {
      var i :| 0 <= i < |us[1..]| && us[1..][i].Child? && us[1..][i].commits;
      assert us[i + 1] == us[1..][i];
    }
    if SomeCommit(us) {
      var i :| 0 <= i < |us| && us[i].Child? && us[i].commits;
      assert i > 0 ==> us[1..][i - 1] == us[i];
    }
  }

  /** Every life: each child that commits takes the right length if and only if no use drifts as long
      as a commit is still to come. */
  lemma {:induction false} LifeRightIff(l: Ledger, us: seq<Use>)
    requires Top(l) && Excess(l) == 0 && Life(l, us)
    ensures AllSettle(l, us) <==> Quiet(l, us)
    decreases us
  {
    hide After, Drift, Excess, Possible, Missing, Settles;
    if us != [] {
      TopStep(l, us[0]);
      CommitsLater(us);
      if us[0].Child? && us[0].commits { SettlesIff(l, us[0]); } else { NoCommit(l, us[0]); }
      if Settles(l, us[0]) {
        if Drift(l, us[0]) == 0 {
          LifeRightIff(After(l, us[0]), us[1..]);
        } else if SomeCommit(us[1..]) {
          ExcessStays(After(l, us[0]), us[1..]);
        } else {
          NoneToCome(After(l, us[0]), us[1..]);
        }
      }
    }
  }

  lemma NoCommit(l: Ledger, u: Use)
    requires !(u.Child? && u.commits)
    ensures Settles(l, u)
  {
  }

  lemma {:induction false} NoneToCome(l: Ledger, us: seq<Use>)
    requires !SomeCommit(us)
    ensures AllSettle(l, us) && Quiet(l, us)
    decreases us
  {
    hide After, Drift;
    if us != [] {
      CommitsLater(us);
      NoneToCome(After(l, us[0]), us[1..]);
    }
  }

  ghost function GiveBacks(us: seq<Use>): nat {
    if us == [] then 0 else (if us[0].GiveBack? then 1 else 0) + GiveBacks(us[1..])
  }

  ghost predicate NoStale(l: Ledger) {
    Have(l).Keys <= l.used.Keys
  }

  /** Before a transaction's first child, the excess is the number of its give-backs. */
  lemma {:induction false} OwnDrifts(l: Ledger, us: seq<Use>)
    requires Top(l) && NoStale(l) && Life(l, us) && forall i :: 0 <= i < |us| ==> !us[i].Child?
    ensures Top(AfterAll(l, us)) && DriftAll(l, us) == GiveBacks(us) && AllPossible(l, us)
    ensures Excess(AfterAll(l, us)) == Excess(l) + GiveBacks(us)
    decreases us
  {
    hide After, Drift, Excess, Possible, Missing, Settles, NoStale;
    if us != [] {
      TopStep(l, us[0]);
      NoCommit(l, us[0]);
      StaleAfter(l, us[0]);
      OwnDrifts(After(l, us[0]), us[1..]);
    }
  }

  lemma StaleAfter(l: Ledger, u: Use)
    requires Top(l) && NoStale(l) && Possible(l, u) && (u.Allocate? || u.GiveBack?)
    ensures NoStale(After(l, u)) && (u.Allocate? ==> Drift(l, u) == 0)
  {
    hide View, Listing, Dropping, Picked, Have, Excess;
    if u.GiveBack? {
      Unlisted(l, u.pg);
      InHave(l, u.pg);
    } else {
      Listed(l, u);
    }
  }

  /** The first child of a transaction: the length is right if and only if its parent has given back
      nothing and the child and its children drift by nothing; without repairs, if and only if they
      lose no entry that their ancestors do not list. */
  lemma RoomRightIff(us: seq<Use>, uses: seq<Use>)
    requires Life(Start(), us) && forall i :: 0 <= i < |us| ==> !us[i].Child?
    requires AllPossible(Begin(AfterAll(Start(), us)), uses)
    ensures var l := AfterAll(Start(), us);
            && (Settles(l, Child(uses, true)) <==> GiveBacks(us) == 0 && DriftAll(Begin(l), uses) == 0)
            && (!Repairs(Begin(l), uses) ==>
                 (Settles(l, Child(uses, true)) <==> GiveBacks(us) == 0 && !LosesAny(Begin(l), uses)))
  {
    hide AllPossible, Life, Excess, Missing, Settles, GiveBacks, Repairs, LosesAny, DriftAll;
    StartTop();
    assert NoStale(Start()) by { assert View([]) == map[]; }
    hide NoStale, Have;
    OwnDrifts(Start(), us);
    var l, u := AfterAll(Start(), us), Child(uses, true);
    hide AfterAll;
    TopStep(l, u);
    SettlesIff(l, u);
    if !Repairs(Begin(l), uses) { DriftsUp(Begin(l), uses); }
  }

  /** A transaction allocates two pages and gives one of them back. A child that does nothing then
      takes a length of 2 for a list of one page. */
  lemma GivenBackBefore(x: nat, y: nat, a: int, b: int)
    requires 0 < x < y
    ensures var us := [Allocate(x, a), Allocate(y, b), GiveBack(y)];
            Life(Start(), us) && GiveBacks(us) == 1 && !Settles(AfterAll(Start(), us), Child([], true))
  {
    var us := [Allocate(x, a), Allocate(y, b), GiveBack(y)];
    var l1 := After(Start(), us[0]);
    var l2 := After(l1, us[1]);
    assert us[1..] == [us[1], us[2]] && us[1..][1..] == [us[2]] && us[1..][1..][1..] == [];
    assert l2.own != [];
    assert Life(l2, [us[2]]) && Life(l1, us[1..]);
    assert GiveBacks(us[1..][1..]) == 1;
    RoomRightIff(us, []);
  }
}

/** What a commit contains: the last commit, changed as the steps of the transaction say.

The steps are read as a list, without the states in between: a page has the contents of the last
step that names it, or is gone if that step freed it or gave it back. A reader that begins
right after the commit finds these contents in the file.
 */
module PageStoreCommits {
  import opened PageLists
  import opened PageStore
  import opened PageStoreInvariant
  import opened PageStoreRuns
  import opened PageStoreAfterRead

  /** What a step or a list of steps says of a page. */
  datatype Word = Nothing | Holds(content: Content) | Gone

  function Says(step: Step, p: PageNo): Word {
    match step
    case TakeRun(_, _, contents, _) => if p in contents then Holds(contents[p]) else Nothing
    case Grow(_, contents) => if p in contents then Holds(contents[p]) else Nothing
    case Modify(pgno, content) => if p == pgno then Holds(content) else Nothing
    case FreePage(pgno) => if p == pgno then Gone else Nothing
    case GiveBack(pgno, num, _) => if pgno <= p < pgno + num then Gone else Nothing
    case _ => Nothing
  }

  function LastWord(steps: seq<Step>, p: PageNo): Word {
    if steps == [] then Nothing
    else
      var n := |steps| - 1;
      if Says(steps[n], p) != Nothing then Says(steps[n], p) else LastWord(steps[..n], p)
  }

  /** `tree` has of page p what `word` says, or what `base` has of it if `word` says nothing. */
  predicate Changed(base: map<PageNo, Content>, word: Word, tree: map<PageNo, Content>, p: PageNo) {
    match word
    case Holds(content) => p in tree && tree[p] == content
    case Gone => p !in tree
    case Nothing => (p in tree <==> p in base) && (p in tree ==> tree[p] == base[p])
  }

  /** The step does not end the transaction. */
  predicate Continues(step: Step) {
    !step.Publish? && !step.Abort? && !step.Crash?
  }

  lemma OneChange(s: Env, step: Step, p: PageNo)
    requires s.txn.Some? && Enabled(s, step) && Continues(step)
    ensures var s' := Apply(s, step);
            && s'.txn.Some? && s'.txn.value.id == s.txn.value.id && s'.current == s.current
            && Changed(s.txn.value.tree, Says(step, p), s'.txn.value.tree, p)
  {
    hide Snap, CommittedFree, MetaOf;
  }

  lemma {:induction false} LastWordFirst(steps: seq<Step>, p: PageNo)
    requires steps != []
    ensures LastWord(steps, p) ==
      if LastWord(steps[1..], p) != Nothing then LastWord(steps[1..], p) else Says(steps[0], p)
    decreases |steps|
  {
    hide Says;
    var n := |steps| - 1;
    if n == 0 {
      assert steps[1..] == [] && steps[..0] == [];
    } else {
      assert steps[1..][..n - 1] == steps[..n][1..];
      LastWordFirst(steps[..n], p);
    }
  }

  lemma {:induction false} RunChanges(s: Env, steps: seq<Step>, end: Env, p: PageNo)
    requires s.txn.Some? && Runs(s, steps, end) && forall i :: 0 <= i < |steps| ==> Continues(steps[i])
    ensures end.txn.Some? && end.txn.value.id == s.txn.value.id && end.current == s.current
    ensures Changed(s.txn.value.tree, LastWord(steps, p), end.txn.value.tree, p)
    decreases |steps|
  {
    hide Enabled, Apply, Says;
    if steps != [] {
      OneChange(s, steps[0], p);
      RunChanges(Apply(s, steps[0]), steps[1..], end, p);
      LastWordFirst(steps, p);
    }
  }

  /** The run of a whole transaction, in three parts. */
  lemma {:induction false} RunsParts(s: Env, a: seq<Step>, b: seq<Step>, end: Env) returns (mid: Env)
    requires Runs(s, a + b, end)
    ensures Runs(s, a, mid) && Runs(mid, b, end)
    decreases |a|
  {
    hide Enabled, Apply;
    if a == [] {
      assert a + b == b;
      mid := s;
    } else {
      assert (a + b)[1..] == a[1..] + b;
      mid := RunsParts(Apply(s, a[0]), a[1..], b, end);
    }
  }

  lemma Published(s: Env, end: Env)
    requires Inv(s) && Runs(s, [Publish], end)
    ensures s.txn.Some? && end.current == s.txn.value.id && end.readers == s.readers
    ensures Snap(end.committed, end.current).tree == s.txn.value.tree
  {
    hide GoodMetas, GoodHistory, GoodReaders, GoodTxn, Intact, Needed, Snap;
    assert [Publish][1..] == [];
  }

  lemma Begun(s: Env, end: Env)
    requires Runs(s, [BeginWrite], end)
    ensures end.txn.Some? && end.txn.value.id == s.current + 1
    ensures end.txn.value.tree == Snap(s.committed, s.current).tree
  {
    hide Snap;
    assert [BeginWrite][1..] == [];
  }

  /** Every transaction that commits: under the next number, the tree of the last commit, changed
      page by page as the steps say. */
  lemma CommitIsChanges(s: Env, steps: seq<Step>, end: Env, p: PageNo)
    requires Inv(s) && Runs(s, [BeginWrite] + (steps + [Publish]), end)
    requires forall i :: 0 <= i < |steps| ==> Continues(steps[i])
    ensures end.current == s.current + 1
    ensures Changed(Snap(s.committed, s.current).tree, LastWord(steps, p), Snap(end.committed, end.current).tree, p)
  {
    hide Inv, Snap, Runs, LastWord;
    var s1 := RunsParts(s, [BeginWrite], steps + [Publish], end);
    var s2 := RunsParts(s1, steps, [Publish], end);
    Begun(s, s1);
    RunChanges(s1, steps, s2, p);
    RunKeeps(s, [BeginWrite], s1);
    RunKeeps(s1, steps, s2);
    Published(s2, end);
  }

  lemma NewReader(s: Env, slot: nat)
    requires Enabled(s, BeginRead(slot))
    ensures var s' := Apply(s, BeginRead(slot));
            slot in s'.readers && s'.readers[slot] == s.current && s'.committed == s.committed && s'.view == s.view
  {
  }

  /** A reader that begins right after the commit finds in the file what the steps say, and the pages
      of which they say nothing as they were. */
  lemma NextReaderFinds(s: Env, steps: seq<Step>, end: Env, slot: nat, p: PageNo)
    requires Reachable(s) && Runs(s, [BeginWrite] + (steps + [Publish]), end)
    requires forall i :: 0 <= i < |steps| ==> Continues(steps[i])
    requires Enabled(end, BeginRead(slot))
    ensures var s', base, word := Apply(end, BeginRead(slot)), Snap(s.committed, s.current).tree, LastWord(steps, p);
            && slot in s'.readers && s'.readers[slot] in s'.committed
            && Changed(base, word, s'.committed[s'.readers[slot]].tree, p)
            && (word.Holds? ==> p in s'.view && s'.view[p] == word.content)
            && (word.Nothing? && p in base ==> p in s'.view && s'.view[p] == base[p])
  {
    ReachableInv(s);
    CommitIsChanges(s, steps, end, p);
    NewReader(end, slot);
    RunsTo(end, BeginRead(slot));
    RunsOn(s, [BeginWrite] + (steps + [Publish]), end, [BeginRead(slot)], Apply(end, BeginRead(slot)));
    ReachableFrom(s, [BeginWrite] + (steps + [Publish]) + [BeginRead(slot)], Apply(end, BeginRead(slot)));
    ReaderIsolation(Apply(end, BeginRead(slot)), slot);
    hide Inv, Reachable, Runs, Enabled, Apply, LastWord;
    var s' := Apply(end, BeginRead(slot));
    var tree := s'.committed[s'.readers[slot]].tree;
    var seen := map q | q in tree :: s'.view[q];
    assert p in tree ==> p in seen && seen[p] == s'.view[p];
  }

  /** Before its meta page is written, a transaction has not changed what is committed. */
  lemma {:induction false} NothingCommitted(s: Env, steps: seq<Step>, end: Env)
    requires s.txn.Some? && Runs(s, steps, end) && forall i :: 0 <= i < |steps| ==> Continues(steps[i])
    ensures end.txn.Some? && end.current == s.current
    ensures end.txn.value.phase != MetaWritten ==> s.txn.value.phase != MetaWritten && end.committed == s.committed
    decreases |steps|
  {
    if steps != [] {
      OneChange(s, steps[0], 0);
      OnePhase(s, steps[0]);
      hide Enabled, Apply;
      NothingCommitted(Apply(s, steps[0]), steps[1..], end);
    }
  }

  lemma OnePhase(s: Env, step: Step)
    requires s.txn.Some? && Enabled(s, step) && Continues(step)
    ensures var s' := Apply(s, step);
            s'.txn.Some? && (s'.txn.value.phase != MetaWritten ==>
                               s.txn.value.phase != MetaWritten && s'.committed == s.committed)
  {
    hide Snap, CommittedFree, MetaOf;
  }

  /** A transaction that aborts leaves what is committed as it was. */
  lemma AbortChangesNothing(s: Env, steps: seq<Step>, end: Env)
    requires Runs(s, [BeginWrite] + (steps + [Abort]), end)
    requires forall i :: 0 <= i < |steps| ==> Continues(steps[i])
    ensures end.current == s.current && end.committed == s.committed && end.txn.None?
  {
    hide Runs, Snap;
    var s1 := RunsParts(s, [BeginWrite], steps + [Abort], end);
    var s2 := RunsParts(s1, steps, [Abort], end);
    Begun(s, s1);
    OneStepRun(s, BeginWrite, s1);
    NothingCommitted(s1, steps, s2);
    OneStepRun(s2, Abort, end);
  }

  lemma OneStepRun(s: Env, step: Step, end: Env)
    requires Runs(s, [step], end)
    ensures Enabled(s, step) && end == Apply(s, step)
  {
    hide Enabled, Apply;
    assert [step][1..] == [];
  }

  lemma ReachableFrom(s: Env, steps: seq<Step>, end: Env)
    requires Reachable(s) && Runs(s, steps, end)
    ensures Reachable(end)
  {
    hide Runs, Init;
    var start: Env, before: seq<Step> :| Init(start) && Runs(start, before, s);
    RunsOn(start, before, s, steps, end);
  }
}

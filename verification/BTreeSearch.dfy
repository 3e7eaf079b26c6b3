/** Search in ordered trees of pages. */
module BTreeSearch {
  import opened BTree

  /** A lower or upper limit for keys. */
  datatype Limit = Unbounded | At(key: int)

  predicate AtLeast(k: int, lo: Limit) {
    lo.At? ==> lo.key <= k
  }

  predicate Below(k: int, hi: Limit) {
    hi.At? ==> k < hi.key
  }

  /** The limits of child c: its own key and the next one; the first key is not used. */
  function LowOf(t: Tree, c: nat, lo: Limit): Limit
    requires t.Branch? && c < |t.keys|
  {
    if c == 0 then lo else At(t.keys[c])
  }

  function HighOf(t: Tree, c: nat, hi: Limit): Limit
    requires t.Branch?
  {
    if c + 1 < |t.keys| then At(t.keys[c + 1]) else hi
  }

  predicate Rising(s: seq<Entry>) {
    forall i, j :: 0 <= i < j < |s| ==> s[i].key < s[j].key
  }

  /** Keys ascend on every page, and every page keeps within the limits set by its parent. */
  ghost predicate Ordered(t: Tree, lo: Limit, hi: Limit) {
    match t
    case Leaf(_, entries) =>
      Rising(entries) && forall i :: 0 <= i < |entries| ==> AtLeast(entries[i].key, lo) && Below(entries[i].key, hi)
    case Branch(_, keys, children) =>
      && |keys| == |children|
      && (forall i, j :: 1 <= i < j < |keys| ==> keys[i] < keys[j])
      && (forall i :: 1 <= i < |keys| ==> AtLeast(keys[i], lo) && Below(keys[i], hi))
      && (forall i :: 0 <= i < |children| ==> Ordered(children[i], LowOf(t, i, lo), HighOf(t, i, hi)))
  }

  ghost predicate Has(t: Tree, key: int) {
    exists i :: 0 <= i < |Flat(t)| && Flat(t)[i].key == key
  }

  /** The entries of a tree keep within its limits. */
  lemma {:induction false} FlatWithin(t: Tree, lo: Limit, hi: Limit, e: Entry)
    requires Ordered(t, lo, hi) && e in Flat(t)
    ensures AtLeast(e.key, lo) && Below(e.key, hi)
    decreases t
  {
    if t.Branch? {
      var c := InSomeChild(t.children, e);
      FlatWithin(t.children[c], LowOf(t, c, lo), HighOf(t, c, hi), e);
    }
  }

  lemma {:induction false} InSomeChild(ts: seq<Tree>, e: Entry) returns (c: nat)
    requires e in FlatAll(ts)
    ensures c < |ts| && e in Flat(ts[c])
    decreases |ts|
  {
    var m := |ts| - 1;
    if e in Flat(ts[m]) {
      c := m;
    } else {
      c := InSomeChild(ts[..m], e);
    }
  }

  /** The entries of an ordered tree ascend. */
  lemma {:induction false} FlatRising(t: Tree, lo: Limit, hi: Limit)
    requires Ordered(t, lo, hi)
    ensures Rising(Flat(t))
    decreases t, 1
  {
    if t.Branch? {
      FlatAllRising(t, lo, hi, |t.children|);
      assert t.children[..|t.children|] == t.children;
    }
  }

  lemma {:induction false} FlatAllRising(t: Tree, lo: Limit, hi: Limit, n: nat)
    requires t.Branch? && Ordered(t, lo, hi) && n <= |t.children|
    ensures Rising(FlatAll(t.children[..n]))
    ensures n > 0 ==> forall e :: e in FlatAll(t.children[..n]) ==> Below(e.key, HighOf(t, n - 1, hi))
    decreases t, 0, n
  {
    if n > 0 {
      var ts, last := t.children[..n], t.children[n - 1];
      assert ts[..n - 1] == t.children[..n - 1];
      FlatAllRising(t, lo, hi, n - 1);
      FlatRising(last, LowOf(t, n - 1, lo), HighOf(t, n - 1, hi));
      forall e | e in Flat(last) ensures AtLeast(e.key, LowOf(t, n - 1, lo)) && Below(e.key, HighOf(t, n - 1, hi)) {
        FlatWithin(last, LowOf(t, n - 1, lo), HighOf(t, n - 1, hi), e);
      }
      Joined(FlatAll(t.children[..n - 1]), Flat(last), t.keys[n - 1], n > 1);
    }
  }

  lemma Joined(a: seq<Entry>, b: seq<Entry>, k: int, both: bool)
    requires Rising(a) && Rising(b) && (both || a == [])
    requires both ==> forall e :: e in a ==> e.key < k
    requires both ==> forall e :: e in b ==> k <= e.key
    ensures Rising(a + b)
  {
    forall i, j | 0 <= i < j < |a + b| ensures (a + b)[i].key < (a + b)[j].key {
      if i < |a| <= j {
        assert a[i] in a && b[j - |a|] in b;
      }
    }
  }

  function KeyAt(page: Tree, i: nat): int
    requires i < Kids(page) && (page.Branch? ==> |page.keys| == |page.children|)
  {
    if page.Leaf? then page.entries[i].key else page.keys[i]
  }

  function FirstKey(page: Tree): nat {
    if page.Leaf? then 0 else 1
  }

  /** What mdb_node_search asks of a page. */
  ghost predicate Searchable(page: Tree) {
    && (page.Branch? ==> |page.keys| == |page.children|)
    && FirstKey(page) < Kids(page)
    && forall i, j :: FirstKey(page) <= i < j < Kids(page) ==> KeyAt(page, i) < KeyAt(page, j)
  }

  /** The place of the key on the page: smaller keys are before it, larger ones behind. */
  ghost predicate Placed(page: Tree, key: int, i: nat, exact: bool)
    requires page.Branch? ==> |page.keys| == |page.children|
  {
    && FirstKey(page) <= i <= Kids(page)
    && (exact ==> i < Kids(page) && KeyAt(page, i) == key)
    && (forall k :: FirstKey(page) <= k < i ==> KeyAt(page, k) < key)
    && (!exact ==> forall k :: i <= k < Kids(page) ==> key < KeyAt(page, k))
  }

  /** mdb_node_search. */
  method NodeSearch(page: Tree, key: int) returns (i: nat, exact: bool)
    requires Searchable(page)
    ensures Placed(page, key, i, exact)
  {
    var low, high, rc := FirstKey(page), Kids(page) - 1, 0;
    i := 0;
    ghost var entered := false;
    while low <= high
      invariant FirstKey(page) <= low && low <= high + 1 && high < Kids(page)
      invariant forall k :: FirstKey(page) <= k < low ==> KeyAt(page, k) < key
      invariant forall k :: high < k < Kids(page) ==> key < KeyAt(page, k)
      invariant entered || low <= high
      invariant entered ==> (rc > 0 && low == i + 1) || (rc < 0 && low <= i && i == high + 1)
      decreases high - low
    {
      i := (low + high) / 2;
      entered := true;
      rc := if key < KeyAt(page, i) then -1 else if key > KeyAt(page, i) then 1 else 0;
      if rc == 0 { break; }
      if rc > 0 {
        low := i + 1;
      } else {
        high := i - 1;
      }
    }
    exact := rc == 0;
    if rc > 0 { i := i + 1; }
  }

  /** The index that a descent follows on a branch page. */
  ghost predicate Follows(page: Tree, key: int, c: nat)
    requires page.Branch? && |page.keys| == |page.children|
  {
    && c < Kids(page)
    && (c > 0 ==> page.keys[c] <= key)
    && (c + 1 < Kids(page) ==> key < page.keys[c + 1])
  }

  method ChildFor(page: Tree, key: int) returns (c: nat)
    requires page.Branch? && Searchable(page)
    ensures Follows(page, key, c)
  {
    var i, exact := NodeSearch(page, key);
    if i >= Kids(page) {
      c := Kids(page) - 1;
    } else if exact {
      c := i;
    } else {
      c := i - 1;
    }
    assert c > 0 ==> KeyAt(page, c) == page.keys[c];
    assert c + 1 < Kids(page) ==> KeyAt(page, c + 1) == page.keys[c + 1];
  }

  lemma OrderedSearchable(t: Tree, depth: nat, lo: Limit, hi: Limit)
    requires Uniform(t, depth) && Ordered(t, lo, hi)
    ensures Searchable(t)
  {
  }

  lemma NextAtMost(t: Tree, lo: Limit, hi: Limit, a: nat, b: nat)
    requires t.Branch? && Ordered(t, lo, hi) && b < |t.keys|
    ensures a < b ==> t.keys[a + 1] <= t.keys[b]
  {
  }

  /** The entries of `page` are those of `t` from number b on; the ones before them have smaller keys,
      the ones behind them larger keys. */
  ghost predicate Around(t: Tree, page: Tree, key: int, b: nat) {
    var s, n := Flat(t), |Flat(page)|;
    && b + n <= |s| && s[b..b + n] == Flat(page)
    && (forall j :: 0 <= j < b ==> s[j].key < key)
    && (forall j :: b + n <= j < |s| ==> key < s[j].key)
  }

  lemma AroundItself(t: Tree, key: int)
    ensures Around(t, t, key, 0)
  {
  }

  lemma AroundBelow(t: Tree, u: Tree, page: Tree, key: int, b: nat, c: nat)
    requires Around(t, u, key, b) && Around(u, page, key, c)
    ensures Around(t, page, key, b + c)
  {
    hide Flat;
    var s, v, n := Flat(t), Flat(u), |Flat(page)|;
    forall j | 0 <= j < n ensures s[b + c + j] == Flat(page)[j] {
      SliceAt(v, c, Flat(page), j);
      SliceAt(s, b, v, c + j);
    }
    assert s[b + c..b + c + n] == Flat(page);
    forall j | 0 <= j < b + c ensures s[j].key < key {
      if j >= b { SliceAt(s, b, v, j - b); }
    }
    forall j | b + c + n <= j < |s| ensures key < s[j].key {
      if j < b + |v| { SliceAt(s, b, v, j - b); }
    }
  }

  lemma SliceAt(s: seq<Entry>, b: nat, v: seq<Entry>, j: nat)
    requires b + |v| <= |s| && s[b..b + |v|] == v && j < |v|
    ensures s[b + j] == v[j]
  {
    assert s[b..b + |v|][j] == s[b + j];
  }

  lemma AroundHas(t: Tree, page: Tree, key: int, b: nat)
    requires Around(t, page, key, b)
    ensures Has(t, key) <==> Has(page, key)
  {
    hide Flat;
    var s, v := Flat(t), Flat(page);
    if Has(t, key) {
      var j :| 0 <= j < |s| && s[j].key == key;
      SliceAt(s, b, v, j - b);
    }
    if Has(page, key) {
      var j :| 0 <= j < |v| && v[j].key == key;
      SliceAt(s, b, v, j);
    }
  }

  lemma {:induction false} FlatAllJoin(a: seq<Tree>, b: seq<Tree>)
    ensures FlatAll(a + b) == FlatAll(a) + FlatAll(b)
    decreases |b|
  {
    if b == [] {
      assert a + b == a;
    } else {
      var m := |b| - 1;
      FlatAllJoin(a, b[..m]);
      FlatAllLast(b);
      FlatAllLast(a + b);
      hide FlatAll, Flat;
      assert (a + b)[..|a| + m] == a + b[..m] && (a + b)[|a| + m] == b[m];
    }
  }

  lemma FlatAllLast(ts: seq<Tree>)
    requires ts != []
    ensures FlatAll(ts) == FlatAll(ts[..|ts| - 1]) + Flat(ts[|ts| - 1])
  {
  }

  lemma ThreeParts(ts: seq<Tree>, c: nat)
    requires c < |ts|
    ensures FlatAll(ts) == FlatAll(ts[..c]) + (Flat(ts[c]) + FlatAll(ts[c + 1..]))
  {
    hide Flat, FlatAll;
    var a, b := ts[..c], ts[c + 1..];
    CutOut(ts, c);
    FlatAllJoin(a, [ts[c]] + b);
    FlatAllJoin([ts[c]], b);
    FlatAllOne(ts[c]);
  }

  lemma CutOut(ts: seq<Tree>, c: nat)
    requires c < |ts|
    ensures ts == ts[..c] + ([ts[c]] + ts[c + 1..])
  {
  }

  lemma FlatAllOne(t: Tree)
    ensures FlatAll([t]) == Flat(t)
  {
    assert [t][..0] == [];
  }

  /** The child that the descent follows has all around it sorted out. */
  lemma FollowsAround(t: Tree, lo: Limit, hi: Limit, key: int, c: nat)
    requires t.Branch? && Ordered(t, lo, hi) && Follows(t, key, c)
    ensures Around(t, t.children[c], key, |FlatAll(t.children[..c])|)
  {
    var ts := t.children;
    var a, b, d := FlatAll(ts[..c]), Flat(ts[c]), FlatAll(ts[c + 1..]);
    ThreeParts(ts, c);
    assert Flat(t) == a + (b + d);
    hide Flat, FlatAll, Ordered;
    forall e | e in a ensures e.key < key { BeforeChild(t, lo, hi, key, c, e); }
    forall e | e in d ensures key < e.key { BehindChild(t, lo, hi, key, c, e); }
    Middle(a, b, d, key);
  }

  lemma Middle(a: seq<Entry>, b: seq<Entry>, d: seq<Entry>, key: int)
    requires (forall e :: e in a ==> e.key < key) && (forall e :: e in d ==> key < e.key)
    ensures var s := a + (b + d);
            && s[|a|..|a| + |b|] == b
            && (forall j :: 0 <= j < |a| ==> s[j].key < key)
            && (forall j :: |a| + |b| <= j < |s| ==> key < s[j].key)
  {
  }

  lemma BeforeChild(t: Tree, lo: Limit, hi: Limit, key: int, c: nat, e: Entry)
    requires t.Branch? && Ordered(t, lo, hi) && Follows(t, key, c) && e in FlatAll(t.children[..c])
    ensures e.key < key
  {
    var i := InSomeChild(t.children[..c], e);
    FlatWithin(t.children[i], LowOf(t, i, lo), HighOf(t, i, hi), e);
    NextAtMost(t, lo, hi, i, c);
  }

  lemma BehindChild(t: Tree, lo: Limit, hi: Limit, key: int, c: nat, e: Entry)
    requires t.Branch? && Ordered(t, lo, hi) && Follows(t, key, c) && e in FlatAll(t.children[c + 1..])
    ensures key < e.key
  {
    var i := InSomeChild(t.children[c + 1..], e);
    var k := c + 1 + i;
    FlatWithin(t.children[k], LowOf(t, k, lo), HighOf(t, k, hi), e);
    NextAtMost(t, lo, hi, c, k);
  }

  /** The descent does not miss a key. */
  lemma FollowsKey(t: Tree, lo: Limit, hi: Limit, key: int, c: nat)
    requires t.Branch? && Ordered(t, lo, hi) && Follows(t, key, c)
    ensures Has(t, key) <==> Has(t.children[c], key)
  {
    hide Around, Has, Ordered;
    FollowsAround(t, lo, hi, key, c);
    AroundHas(t, t.children[c], key, |FlatAll(t.children[..c])|);
  }

  /** A new key belongs in front of entry number n. */
  ghost predicate Gap(s: seq<Entry>, n: nat, key: int) {
    && n <= |s|
    && (forall j :: 0 <= j < n ==> s[j].key < key)
    && (forall j :: n <= j < |s| ==> key < s[j].key)
  }

  /** It does if and only if inserting it there keeps the keys ascending. */
  lemma GapIff(s: seq<Entry>, n: nat, e: Entry)
    requires Rising(s) && n <= |s|
    ensures Gap(s, n, e.key) <==> Rising(s[..n] + [e] + s[n..])
  {
    var r := s[..n] + [e] + s[n..];
    if Rising(r) {
      assert r[n] == e;
      forall j | 0 <= j < n ensures s[j].key < e.key { assert r[j] == s[j]; }
      forall j | n <= j < |s| ensures e.key < s[j].key { assert r[j + 1] == s[j]; }
    }
  }
}

/**
  The abstract shape of the B+ tree index.

  A tree is described level by level: level 0 holds the leaves from left to right, the last level
  holds the root.  Reading the entries of level i+1 from left to right gives one entry per node of
  level i, in the same order; this is what `LinkedF` says.  Everything about parents, children and
  separators is stated on these flat sequences, so no proof recurses over subtrees.
*/
module Tower {
  import opened Defs

  datatype Entry = Entry(key: int, rid: Rid)

  datatype Node = Node(page: int, es: seq<Entry>)

  type Level = seq<Node>

  /** The child pointer stored in an internal node. */
  function ChildRid(page: int): Rid { Rid(page, -1) }

  // ---------- flattening a level ----------

  ghost function Flat(lv: Level): seq<Entry> {
    if lv == [] then [] else Flat(lv[..|lv| - 1]) + lv[|lv| - 1].es
  }

  lemma {:induction false} FlatAppend(a: Level, b: Level)
    ensures Flat(a + b) == Flat(a) + Flat(b)
  {
    if b == [] {
      assert a + b == a;
    } else {
      var c := b[..|b| - 1];
      FlatAppend(a, c);
      assert (a + b)[..|a + b| - 1] == a + c;
    }
  }

  lemma {:induction false} FlatOne(n: Node)
    ensures Flat([n]) == n.es
  {
    assert [n][..0] == [];
  }

  lemma {:induction false} FlatNone()
    ensures Flat([]) == []
  {}

  /** Number of entries in the nodes before node m. */
  ghost function Off(lv: Level, m: nat): nat
    requires m <= |lv|
  {
    |Flat(lv[..m])|
  }

  lemma {:induction false} FlatAt(lv: Level, m: nat)
    requires m < |lv|
    ensures Flat(lv) == Flat(lv[..m]) + lv[m].es + Flat(lv[m + 1..])
    ensures Off(lv, m + 1) == Off(lv, m) + |lv[m].es| <= |Flat(lv)|
  {
    assert lv == lv[..m + 1] + lv[m + 1..];
    FlatAppend(lv[..m + 1], lv[m + 1..]);
    assert lv[..m + 1][..m] == lv[..m];
  }

  lemma {:induction false} FlatIndex(lv: Level, m: nat, j: nat)
    requires m < |lv| && j < |lv[m].es|
    ensures Off(lv, m) + j < |Flat(lv)|
    ensures Flat(lv)[Off(lv, m) + j] == lv[m].es[j]
  {
    FlatAt(lv, m);
  }

  lemma {:induction false} FlatUpdate(lv: Level, m: nat, n: Node)
    requires m < |lv|
    ensures Flat(lv[m := n]) == Flat(lv[..m]) + n.es + Flat(lv[m + 1..])
    ensures lv[m := n][..m] == lv[..m] && lv[m := n][m + 1..] == lv[m + 1..]
  {
    FlatAt(lv[m := n], m);
  }

  /** Replacing node m by two nodes. */
  ghost function Replace2(lv: Level, m: nat, a: Node, b: Node): Level
    requires m < |lv|
  {
    lv[..m] + [a, b] + lv[m + 1..]
  }

  lemma {:induction false} FlatReplace2(lv: Level, m: nat, a: Node, b: Node)
    requires m < |lv|
    ensures Flat(Replace2(lv, m, a, b)) == Flat(lv[..m]) + (a.es + b.es) + Flat(lv[m + 1..])
  {
    FlatAppend(lv[..m] + [a, b], lv[m + 1..]);
    FlatAppend(lv[..m], [a, b]);
    assert [a, b][..1] == [a] && [a][..0] == [];
    assert Flat([a]) == a.es;
  }

  lemma {:induction false} OffMonotone(lv: Level, m: nat, q: nat)
    requires m <= q <= |lv|
    requires forall i :: m <= i < q ==> |lv[i].es| > 0
    ensures Off(lv, m) + (q - m) <= Off(lv, q)
    decreases q - m
  {
    if m < q {
      FlatAt(lv, m);
      OffMonotone(lv, m + 1, q);
    }
  }

  /** Every flat position lies in some node. */
  lemma {:induction false} Locate(lv: Level, x: nat) returns (q: nat, j: nat)
    requires x < |Flat(lv)|
    ensures q < |lv| && j < |lv[q].es| && Off(lv, q) + j == x
  {
    var init := lv[..|lv| - 1];
    if x < |Flat(init)| {
      q, j := Locate(init, x);
      assert init[..q] == lv[..q];
    } else {
      q, j := |lv| - 1, x - |Flat(init)|;
    }
  }

  // ---------- editing a sequence ----------

  function InsertAt<T>(s: seq<T>, pos: nat, x: T): seq<T>
    requires pos <= |s|
  {
    s[..pos] + [x] + s[pos..]
  }

  function RemoveAt<T>(s: seq<T>, pos: nat): seq<T>
    requires pos < |s|
  {
    s[..pos] + s[pos + 1..]
  }

  // ---------- order ----------

  ghost predicate StrictFrom(f: seq<Entry>, lo: nat) {
    forall i, j :: lo <= i < j < |f| ==> f[i].key < f[j].key
  }

  lemma {:induction false} AdjacentStrict(f: seq<Entry>, lo: nat)
    requires forall i :: lo <= i < |f| - 1 ==> f[i].key < f[i + 1].key
    ensures StrictFrom(f, lo)
  {
    forall i, j | lo <= i < j < |f| ensures f[i].key < f[j].key {
      AdjacentChain(f, lo, i, j);
    }
  }

  lemma {:induction false} AdjacentChain(f: seq<Entry>, lo: nat, i: nat, j: nat)
    requires forall i :: lo <= i < |f| - 1 ==> f[i].key < f[i + 1].key
    requires lo <= i < j < |f|
    ensures f[i].key < f[j].key
    decreases j - i
  {
    assert f[i].key < f[i + 1].key;
    if i + 1 < j { AdjacentChain(f, lo, i + 1, j); }
  }

  /** The finite map a sorted entry sequence stands for. */
  ghost function AsMap(f: seq<Entry>): (r: map<int, Rid>)
    requires StrictFrom(f, 0)
  {
    map e | e in f :: e.key := e.rid
  }

  lemma {:induction false} AsMapHas(f: seq<Entry>, x: nat)
    requires StrictFrom(f, 0) && x < |f|
    ensures f[x].key in AsMap(f) && AsMap(f)[f[x].key] == f[x].rid
  {
    assert f[x] in f;
  }

  lemma {:induction false} AsMapOnly(f: seq<Entry>, k: int) returns (x: nat)
    requires StrictFrom(f, 0) && k in AsMap(f)
    ensures x < |f| && f[x].key == k && AsMap(f)[k] == f[x].rid
  {
    var e :| e in f && e.key == k;
    x :| 0 <= x < |f| && f[x] == e;
  }

  // ---------- one level on top of another ----------

  /** Separator f[m] divides node m-1 from node m.  Over leaves it only bounds the keys (a delete
      may leave it below the leaf's first key); over internal nodes it repeats the node's key 0. */
  ghost predicate SepOK(lo: Level, f: seq<Entry>, m: int, leaf: bool)
    requires 1 <= m < |lo| && m < |f|
  {
    && |lo[m - 1].es| > 0
    && |lo[m].es| > 0
    && if leaf then lo[m - 1].es[|lo[m - 1].es| - 1].key < f[m].key <= lo[m].es[0].key
       else f[m].key == lo[m].es[0].key
  }

  /** f lists the nodes of `lo`, with good separators.  f[0].key is never looked at. */
  ghost predicate LinkedF(lo: Level, f: seq<Entry>, leaf: bool) {
    && |f| == |lo|
    && (forall m :: 0 <= m < |lo| ==> f[m].rid == ChildRid(lo[m].page))
    && (forall m :: 1 <= m < |lo| ==> SepOK(lo, f, m, leaf))
  }

  ghost predicate LinkAt(tower: seq<Level>, i: nat)
    requires i + 1 < |tower|
  {
    LinkedF(tower[i], Flat(tower[i + 1]), i == 0)
  }

  /** All links except possibly the one above level x. */
  ghost predicate LinksExcept(tower: seq<Level>, x: int) {
    forall i: nat :: i + 1 < |tower| && i != x ==> LinkAt(tower, i)
  }

  ghost predicate SizeOK(order: nat, tower: seq<Level>, i: nat, n: Node) {
    if i == |tower| - 1 && |tower[i]| == 1
    then (if i == 0 then 0 else 2) <= |n.es| < order
    else order / 2 <= |n.es| < order
  }

  /** Occupancy of every node except possibly node m of level x. */
  ghost predicate SizesExcept(order: nat, tower: seq<Level>, x: int, m: int) {
    forall i: nat, q: nat :: i < |tower| && q < |tower[i]| && !(i == x && q == m)
      ==> SizeOK(order, tower, i, tower[i][q])
  }

  /** What an insert or a delete starts from and must leave behind. */
  ghost predicate Wf(order: nat, tower: seq<Level>) {
    && order >= 4
    && |tower| >= 1
    && |tower[|tower| - 1]| == 1
    && StrictFrom(Flat(tower[0]), 0)
    && LinksExcept(tower, -1)
    && SizesExcept(order, tower, -1, -1)
  }

  /** All nodes below the root are non-empty; follows from Wf, also kept in the middle of an operation. */
  ghost predicate NonEmpty(tower: seq<Level>) {
    forall i: nat, q: nat :: i < |tower| - 1 && q < |tower[i]| ==> |tower[i][q].es| > 0
  }

  // ---------- order of the inner levels ----------

  lemma {:induction false} LevelStrict(tower: seq<Level>, i: nat)
    requires |tower| >= 1 && i < |tower|
    requires StrictFrom(Flat(tower[0]), 0)
    requires LinksExcept(tower, -1) && NonEmpty(tower)
    ensures StrictFrom(Flat(tower[i]), if i == 0 then 0 else 1)
  {
    hide Flat;
    if i > 0 {
      LevelStrict(tower, i - 1);
      var lo, f := tower[i - 1], Flat(tower[i]);
      assert LinkAt(tower, i - 1);
      forall a | 1 <= a < |f| - 1 ensures f[a].key < f[a + 1].key {
        assert SepOK(lo, f, a, i - 1 == 0) && SepOK(lo, f, a + 1, i - 1 == 0);
        FlatIndex(lo, a, 0);
        if i == 1 {
          FlatIndex(lo, a, |lo[a].es| - 1);
        } else {
          FlatIndex(lo, a + 1, 0);
          OffMonotone(lo, 0, a);
          OffMonotone(lo, a, a + 1);
        }
      }
      AdjacentStrict(f, 1);
    }
  }

  // ---------- search ----------

  /** Node m of the level listed by f is the one that may hold k. */
  ghost predicate Covers(f: seq<Entry>, m: nat, k: int) {
    && m < |f|
    && (m > 0 ==> f[m].key <= k)
    && (m + 1 < |f| ==> k < f[m + 1].key)
  }

  /** Node p of level i is the one whose subtree may hold k. */
  ghost predicate CoversAt(tower: seq<Level>, i: nat, p: nat, k: int) {
    && i < |tower|
    && p < |tower[i]|
    && if i + 1 == |tower| then |tower[i]| == 1 else Covers(Flat(tower[i + 1]), p, k)
  }

  /** j is what a binary search for the first key > k, starting at index 1, finds. */
  ghost predicate UpperBoundAt(es: seq<Entry>, k: int, j: nat) {
    && 1 <= j <= |es|
    && (forall x :: 1 <= x < j ==> es[x].key <= k)
    && (forall x :: j <= x < |es| ==> k < es[x].key)
  }

  /** One step down: the child chosen by `upper_bound` covers k. */
  lemma {:induction false} DescendStep(tower: seq<Level>, i: nat, p: nat, k: int, j: nat)
    requires 0 < i < |tower|
    requires LinksExcept(tower, -1) && NonEmpty(tower)
    requires CoversAt(tower, i, p, k)
    requires |tower[i][p].es| > 0
    requires UpperBoundAt(tower[i][p].es, k, j)
    ensures Off(tower[i], p) + j - 1 < |tower[i - 1]|
    ensures CoversAt(tower, i - 1, Off(tower[i], p) + j - 1, k)
    ensures tower[i][p].es[j - 1].rid == ChildRid(tower[i - 1][Off(tower[i], p) + j - 1].page)
  {
    hide Flat;
    FlatNone();
    var lv := tower[i];
    var f := Flat(lv);
    assert LinkAt(tower, i - 1);
    FlatIndex(lv, p, j - 1);
    FlatIndex(lv, p, 0);
    var m := Off(lv, p) + j - 1;
    if j < |lv[p].es| {
      FlatIndex(lv, p, j);
    } else if p + 1 < |lv| {
      FlatAt(lv, p);
      assert LinkAt(tower, i);
      assert SepOK(lv, Flat(tower[i + 1]), p + 1, false);
      FlatIndex(lv, p + 1, 0);
    } else {
      FlatAt(lv, p);
      assert lv[p + 1..] == [];
    }
    assert p == 0 ==> lv[..p] == [];
    if m > 0 && j == 1 && p > 0 {
      assert LinkAt(tower, i);
      assert SepOK(lv, Flat(tower[i + 1]), p, false);
    }
  }

  lemma {:induction false} PrefixBelow(f: seq<Entry>, n: nat, k: int)
    requires StrictFrom(f, 0) && 0 < n <= |f| && f[n - 1].key < k
    ensures forall e :: e in f[..n] ==> e.key < k
  {}

  lemma {:induction false} SuffixAbove(f: seq<Entry>, n: nat, k: int)
    requires StrictFrom(f, 0) && n < |f| && k < f[n].key
    ensures forall e :: e in f[n..] ==> k < e.key
  {}

  /** A covering leaf separates the keys before it from the keys after it. */
  lemma {:induction false} LeafBounds(tower: seq<Level>, m: nat, k: int)
    requires |tower| >= 1
    requires StrictFrom(Flat(tower[0]), 0)
    requires LinksExcept(tower, -1)
    requires CoversAt(tower, 0, m, k)
    ensures forall e :: e in Flat(tower[0][..m]) ==> e.key < k
    ensures forall e :: e in Flat(tower[0][m + 1..]) ==> k < e.key
  {
    LeafBelow(tower, m, k);
    LeafAbove(tower, m, k);
  }

  lemma {:induction false} LeafBelow(tower: seq<Level>, m: nat, k: int)
    requires |tower| >= 1
    requires StrictFrom(Flat(tower[0]), 0)
    requires LinksExcept(tower, -1)
    requires CoversAt(tower, 0, m, k)
    ensures forall e :: e in Flat(tower[0][..m]) ==> e.key < k
  {
    hide Flat;
    var lv := tower[0];
    if m > 0 {
      assert LinkAt(tower, 0);
      assert SepOK(lv, Flat(tower[1]), m, true);
      FlatIndex(lv, m - 1, |lv[m - 1].es| - 1);
      FlatAt(lv, m - 1);
      FlatAt(lv, m);
      PrefixBelow(Flat(lv), Off(lv, m), k);
      assert Flat(lv)[..Off(lv, m)] == Flat(lv[..m]);
    } else {
      assert lv[..0] == [];
      FlatNone();
    }
  }

  lemma {:induction false} LeafAbove(tower: seq<Level>, m: nat, k: int)
    requires |tower| >= 1
    requires StrictFrom(Flat(tower[0]), 0)
    requires LinksExcept(tower, -1)
    requires CoversAt(tower, 0, m, k)
    ensures forall e :: e in Flat(tower[0][m + 1..]) ==> k < e.key
  {
    var lv := tower[0];
    if m + 1 < |lv| {
      assert LinkAt(tower, 0);
      assert SepOK(lv, Flat(tower[1]), m + 1, true);
      FlatIndex(lv, m + 1, 0);
      FlatAt(lv, m);
      SuffixAbove(Flat(lv), Off(lv, m + 1), k);
      assert Flat(lv)[Off(lv, m + 1)..] == Flat(lv[m + 1..]);
    } else {
      assert lv[m + 1..] == [];
    }
  }
}

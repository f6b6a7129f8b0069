/** The block nested-loop join executor, over scans and over other joins. */
module NestedLoopJoin {
  import opened Defs

  /** How two rows make one, and which results are kept. */
  datatype Match<!Row> = Match(glue: (Row, Row) -> Row, keep: Row -> bool)

  // ---------- what a join is ----------

  ghost function Kept<Row>(l: Row, r: Row, how: Match<Row>): multiset<Row> {
    if how.keep(how.glue(l, r)) then multiset{how.glue(l, r)} else multiset{}
  }

  /** The kept combinations of one left row. */
  ghost function RowJoin<Row>(l: Row, rs: seq<Row>, how: Match<Row>): multiset<Row> {
    if rs == [] then multiset{} else Kept(l, rs[0], how) + RowJoin(l, rs[1..], how)
  }

  /** All combinations of a left and a right row that pass the filter, each as often as its pair occurs. */
  ghost function JoinRows<Row>(ls: seq<Row>, rs: seq<Row>, how: Match<Row>): multiset<Row> {
    if ls == [] then multiset{} else RowJoin(ls[0], rs, how) + JoinRows(ls[1..], rs, how)
  }

  lemma {:induction false} JoinCons<Row>(l: Row, ls: seq<Row>, rs: seq<Row>, how: Match<Row>)
    ensures JoinRows([l] + ls, rs, how) == RowJoin(l, rs, how) + JoinRows(ls, rs, how)
  {
    hide RowJoin;
    assert ([l] + ls)[1..] == ls;
  }

  lemma {:induction false} JoinLeftSplit<Row>(a: seq<Row>, b: seq<Row>, rs: seq<Row>, how: Match<Row>)
    ensures JoinRows(a + b, rs, how) == JoinRows(a, rs, how) + JoinRows(b, rs, how)
    decreases |a|
  {
    hide RowJoin;
    if a == [] {
      assert a + b == b;
    } else {
      var l, tail := a[0], a[1..];
      JoinLeftSplit(tail, b, rs, how);
      JoinAssoc(l, tail, b, rs, how);
      assert a == [l] + tail;
    }
  }

  lemma {:induction false} JoinAssoc<Row>(l: Row, a: seq<Row>, b: seq<Row>, rs: seq<Row>, how: Match<Row>)
    requires JoinRows(a + b, rs, how) == JoinRows(a, rs, how) + JoinRows(b, rs, how)
    ensures JoinRows([l] + a + b, rs, how) == JoinRows([l] + a, rs, how) + JoinRows(b, rs, how)
  {
    hide RowJoin, JoinRows;
    assert [l] + a + b == [l] + (a + b);
    JoinCons(l, a + b, rs, how);
    JoinCons(l, a, rs, how);
  }

  lemma {:induction false} JoinRightStep<Row>(ls: seq<Row>, rs: seq<Row>, how: Match<Row>)
    requires rs != []
    ensures JoinRows(ls, rs, how) == JoinRows(ls, [rs[0]], how) + JoinRows(ls, rs[1..], how)
  {
    hide Kept;
    if ls != [] {
      JoinRightStep(ls[1..], rs, how);
      RowOne(ls[0], rs[0], how);
    }
  }

  lemma {:induction false} RowOne<Row>(l: Row, r: Row, how: Match<Row>)
    ensures RowJoin(l, [r], how) == Kept(l, r, how)
  {
    hide Kept;
    assert [r][1..] == [];
  }

  lemma {:induction false} JoinRightEmpty<Row>(ls: seq<Row>, how: Match<Row>)
    ensures JoinRows(ls, [], how) == multiset{}
  {
    if ls != [] { JoinRightEmpty(ls[1..], how); }
  }

  // ---------- the order in which the executor forms the rows ----------

  /** One right row against a block. */
  ghost function Pairs<Row>(block: seq<Row>, r: Row, how: Match<Row>): seq<Row> {
    if block == [] then []
    else
      var n := |block| - 1;
      Pairs(block[..n], r, how) + if how.keep(how.glue(block[n], r)) then [how.glue(block[n], r)] else []
  }

  /** The right rows, one after the other, against a block. */
  ghost function OneBlock<Row>(block: seq<Row>, rs: seq<Row>, how: Match<Row>): seq<Row> {
    if rs == [] then [] else Pairs(block, rs[0], how) + OneBlock(block, rs[1..], how)
  }

  ghost function First<Row>(ls: seq<Row>, b: nat): seq<Row> { if b <= |ls| then ls[..b] else ls }

  ghost function Behind<Row>(ls: seq<Row>, b: nat): seq<Row> { if b <= |ls| then ls[b..] else [] }

  /** Block after block, each against all right rows. */
  ghost function Blocks<Row>(ls: seq<Row>, rs: seq<Row>, b: nat, how: Match<Row>): seq<Row>
    requires b >= 1
    decreases |ls|
  {
    if ls == [] then [] else OneBlock(First(ls, b), rs, how) + Blocks(Behind(ls, b), rs, b, how)
  }

  /** What a join emits in one go: over a right child that can be read only once, the first block alone. */
  ghost function Emitted<Row>(ls: seq<Row>, rs: seq<Row>, b: nat, how: Match<Row>, rightOnce: bool): seq<Row>
    requires b >= 1
  {
    if rightOnce then OneBlock(First(ls, b), rs, how) else Blocks(ls, rs, b, how)
  }

  lemma {:induction false} PairsRows<Row>(block: seq<Row>, r: Row, how: Match<Row>)
    ensures multiset(Pairs(block, r, how)) == JoinRows(block, [r], how)
  {
    hide JoinRows, RowJoin;
    if block == [] {
      JoinNone([r], how);
    } else {
      var n := |block| - 1;
      PairsRows(block[..n], r, how);
      JoinLeftSplit(block[..n], [block[n]], [r], how);
      assert block == block[..n] + [block[n]];
      assert [block[n]] == [block[n]] + [];
      JoinCons(block[n], [], [r], how);
      JoinNone([r], how);
      RowOne(block[n], r, how);
    }
  }

  lemma {:induction false} JoinNone<Row>(rs: seq<Row>, how: Match<Row>)
    ensures JoinRows([], rs, how) == multiset{}
  {}

  lemma {:induction false} OneBlockRows<Row>(block: seq<Row>, rs: seq<Row>, how: Match<Row>)
    ensures multiset(OneBlock(block, rs, how)) == JoinRows(block, rs, how)
  {
    hide JoinRows, RowJoin, Pairs;
    if rs == [] {
      JoinRightEmpty(block, how);
    } else {
      OneBlockRows(block, rs[1..], how);
      PairsRows(block, rs[0], how);
      JoinRightStep(block, rs, how);
    }
  }

  /** For any block size, all blocks together form the relational join. */
  lemma {:induction false} BlocksRows<Row>(ls: seq<Row>, rs: seq<Row>, b: nat, how: Match<Row>)
    requires b >= 1
    ensures multiset(Blocks(ls, rs, b, how)) == JoinRows(ls, rs, how)
    decreases |ls|
  {
    hide JoinRows, RowJoin, OneBlock;
    if ls == [] {
      JoinNone(rs, how);
    } else {
      BlocksRows(Behind(ls, b), rs, b, how);
      OneBlockRows(First(ls, b), rs, how);
      JoinLeftSplit(First(ls, b), Behind(ls, b), rs, how);
      assert ls == First(ls, b) + Behind(ls, b);
    }
  }

  /** The rows a join emits: the join of all left rows, or of the first block. */
  lemma {:induction false} EmittedRows<Row>(ls: seq<Row>, rs: seq<Row>, b: nat, how: Match<Row>, rightOnce: bool)
    requires b >= 1
    ensures multiset(Emitted(ls, rs, b, how, rightOnce)) == JoinRows(if rightOnce then First(ls, b) else ls, rs, how)
  {
    BlocksRows(ls, rs, b, how);
    OneBlockRows(First(ls, b), rs, how);
  }

  /** Over a right child that is read once, nothing is lost exactly when later left rows would add nothing. */
  lemma {:induction false} CompleteIff<Row>(ls: seq<Row>, rs: seq<Row>, b: nat, how: Match<Row>)
    requires b >= 1
    ensures multiset(Emitted(ls, rs, b, how, true)) == JoinRows(ls, rs, how)
            <==> |ls| <= b || JoinRows(Behind(ls, b), rs, how) == multiset{}
  {
    hide JoinRows, RowJoin;
    EmittedRows(ls, rs, b, how, true);
    JoinLeftSplit(First(ls, b), Behind(ls, b), rs, how);
    assert ls == First(ls, b) + Behind(ls, b);
    JoinNone(rs, how);
    SumSame(JoinRows(First(ls, b), rs, how), JoinRows(Behind(ls, b), rs, how));
  }

  lemma {:induction false} SumSame<T>(a: multiset<T>, b: multiset<T>)
    ensures a == a + b <==> b == multiset{}
  {
    if a == a + b {
      forall x ensures b[x] == 0 { assert (a + b)[x] == a[x] + b[x]; }
    }
  }

  // ---------- the executors ----------

  /**
   * A scan (no `how`) or a join of two executors.  Seen from outside, an executor is a cursor over `rest`,
   * the rows from the current one on; `all` are the rows of its first run.  A scan starts again whenever it
   * is told to begin; a join that has ended stays at its end.
   */
  class Executor<Row> {
    const rows: seq<Row>
    var pos: nat
    const left: Executor?<Row>
    const right: Executor?<Row>
    const how: Option<Match<Row>>
    const bufferSize: nat
    var isend: bool
    var lRecords: seq<Row>
    var buff: seq<Row>
    ghost const Repr: set<object>
    ghost const all: seq<Row>
    ghost var rest: seq<Row>
    ghost var begun: bool
    ghost var taken: bool

    predicate IsJoin() { how.Some? }

    predicate IsEnd()
      reads this
    {
      if IsJoin() then isend else pos >= |rows|
    }

    /** The executor owns its children, and they do not share. */
    ghost predicate Tree()
      reads this, Repr
    {
      && this in Repr
      && (IsJoin() ==>
            && left != null && right != null && left in Repr && right in Repr
            && left.Repr <= Repr && right.Repr <= Repr && this !in left.Repr && this !in right.Repr
            && left.Repr !! right.Repr && left in left.Repr && right in right.Repr
            && bufferSize >= 1
            && all == Emitted(left.all, right.all, bufferSize, how.value, right.IsJoin()))
    }

    ghost predicate Valid()
      reads this, Repr
      decreases Repr
    {
      && Tree()
      && (IsJoin() ==> left.Valid() && right.Valid() && JoinState())
      && (!IsJoin() ==> all == rows && pos <= |rows| && rest == rows[pos..] && (taken ==> rest != []))
    }

    /** What blocks after the present one will add. */
    ghost function Later(): seq<Row>
      requires IsJoin() && left != null && right != null && bufferSize >= 1
      reads this, left, right
    {
      if right.IsJoin() then [] else Blocks(left.rest, right.all, bufferSize, how.value)
    }

    ghost predicate JoinState()
      requires IsJoin() && left != null && right != null && bufferSize >= 1
      reads this, left, right
    {
      && (!begun ==> !isend && lRecords == [] && buff == [] && !left.begun && !right.begun && !taken)
      && (begun ==> left.begun && right.begun && !left.taken)
      && (begun && isend ==> rest == [] && buff == [] && !taken)
      && (begun && !isend ==>
            && lRecords != [] && right.taken && right.rest != [] && rest != []
            && (if taken then rest[1..] else rest)
               == buff + (OneBlock(lRecords, right.rest[1..], how.value) + Later())
            && (!taken ==> buff != []))
    }

    lemma {:induction false} JoinParts()
      requires Valid() && IsJoin()
      ensures Tree() && left.Valid() && right.Valid() && JoinState()
    {}

    lemma {:induction false} JoinValid()
      requires Tree() && IsJoin() && left.Valid() && right.Valid() && JoinState()
      ensures Valid()
    {}

    constructor Scan(all': seq<Row>)
      ensures Valid() && fresh(Repr) && !IsJoin() && all == all' && !begun
    {
      rows, pos, left, right, how, bufferSize := all', 0, null, null, None, 0;
      isend, lRecords, buff := false, [], [];
      all, rest, begun, taken := all', all', false, false;
      Repr := {this};
    }

    constructor Join(l: Executor<Row>, r: Executor<Row>, m: Match<Row>, size: nat)
      requires l.Valid() && r.Valid() && l.Repr !! r.Repr && !l.begun && !r.begun && size >= 1
      ensures Valid() && IsJoin() && !begun && fresh(Repr - l.Repr - r.Repr)
      ensures all == Emitted(l.all, r.all, size, m, r.IsJoin())
    {
      rows, pos, left, right, how, bufferSize := [], 0, l, r, Some(m), size;
      isend, lRecords, buff := false, [], [];
      all, rest, begun, taken := Emitted(l.all, r.all, size, m, r.IsJoin()), [], false, false;
      Repr := {this} + l.Repr + r.Repr;
    }

    /** What a join still has to form before any block is taken, or with the block in hand. */
    ghost function Pending(): seq<Row>
      requires IsJoin() && left != null && right != null && bufferSize >= 1
      reads this, left, right
    {
      if lRecords == [] then
        if right.IsJoin() then OneBlock(First(left.rest, bufferSize), right.rest, how.value)
        else Blocks(left.rest, right.all, bufferSize, how.value)
      else OneBlock(lRecords, right.rest, how.value) + Later()
    }

    /** A join in the middle of make_buff: nothing is buffered, no row of a child is taken. */
    ghost predicate Between()
      reads this, Repr
    {
      && Tree() && IsJoin() && left.Valid() && right.Valid()
      && left.begun && right.begun && !left.taken && !right.taken && buff == []
      && (lRecords == [] && !right.IsJoin() ==> right.rest == right.all)
    }

    /** The loop that fills the block. */
    method FillBlock()
      requires Between() && lRecords == []
      modifies this`lRecords, left.Repr
      ensures Between() && lRecords == First(old(left.rest), bufferSize) && left.rest == Behind(old(left.rest), bufferSize)
      decreases Repr, 1
    {
      hide Emitted, JoinState, Valid;
      ghost var ls := left.rest;
      assert ls[0..] == ls;
      var i := 0;
      while i < bufferSize && !left.IsEnd()
        invariant Tree() && IsJoin() && left.Valid() && right.Valid()
        invariant left.begun && right.begun && !left.taken && !right.taken && buff == []
        invariant right.rest == old(right.rest)
        invariant i <= bufferSize && i <= |ls| && lRecords == ls[..i] && left.rest == ls[i..]
        decreases bufferSize - i
      {
        EndIff(left);
        var l := left.Next();
        lRecords := lRecords + [l];
        left.NextTuple();
        assert ls[i..][1..] == ls[i + 1..] && ls[..i + 1] == ls[..i] + [ls[i]];
        i := i + 1;
      }
      EndIff(left);
    }

    lemma {:induction false} EndIff(e: Executor<Row>)
      requires e.Valid() && e.begun
      ensures e.IsEnd() <==> e.rest == []
      ensures e in e.Repr
    {}

    /** The innermost loop: one right row against the whole block. */
    method MatchRow(r: Row)
      requires IsJoin() && buff == []
      modifies this`buff
      ensures buff == Pairs(lRecords, r, how.value)
    {
      var i := 0;
      while i < |lRecords|
        invariant i <= |lRecords| && buff == Pairs(lRecords[..i], r, how.value)
      {
        var rec := how.value.glue(lRecords[i], r);
        assert lRecords[..i + 1][..i] == lRecords[..i];
        if how.value.keep(rec) { buff := buff + [rec]; }
        i := i + 1;
      }
      assert lRecords[..i] == lRecords;
    }

    /** The middle loop: right rows until one matches; afterwards a match is buffered or the right child is at its end. */
    method MatchBlock()
      requires Between() && lRecords != []
      modifies this`buff, right.Repr
      ensures Tree() && left.Valid() && right.Valid() && right.begun
      ensures buff == [] ==> right.rest == [] && !right.taken && OneBlock(lRecords, old(right.rest), how.value) == []
      ensures buff != [] ==> right.taken && right.rest != []
      ensures buff != [] ==> buff + OneBlock(lRecords, right.rest[1..], how.value) == OneBlock(lRecords, old(right.rest), how.value)
      decreases Repr, 1
    {
      hide Emitted, JoinState, Valid, Pairs;
      while !right.IsEnd()
        invariant Between() && lRecords != []
        invariant OneBlock(lRecords, right.rest, how.value) == OneBlock(lRecords, old(right.rest), how.value)
        decreases |right.rest|
      {
        EndIff(right);
        var r := right.Next();
        MatchRow(r);
        if buff != [] { return; }
        right.NextTuple();
      }
      EndIff(right);
    }

    /** make_buff: advance to the next right row with a match in the block, or to the end. */
    method MakeBuff()
      requires Between() && begun && !taken && (isend ==> rest == [])
      modifies this, left.Repr, right.Repr
      ensures Valid() && begun && !taken
      ensures old(isend) ==> isend && rest == []
      ensures !old(isend) ==> rest == old(Pending())
      decreases Repr, 3
    {
      hide Emitted, Valid, OneBlock, Blocks, First, Behind, Pending;
      if isend { JoinValid(); return; }
      ghost var p := Pending();
      while !left.IsEnd() || lRecords != []
        invariant Between() && begun && !taken && !isend && Pending() == p
        decreases |left.rest|, |lRecords|
      {
        var found := Round();
        if found {
          rest := p;
          JoinValid();
          return;
        }
      }
      EndIff(left);
      NothingLeft();
      isend := true;
      rest := [];
      JoinValid();
    }

    /** One round of make_buff: take a block if there is none, and match it until a row is found or the block is done. */
    method Round() returns (found: bool)
      requires Between() && (!left.IsEnd() || lRecords != [])
      modifies this`lRecords, this`buff, left.Repr, right.Repr
      ensures Tree() && left.Valid() && right.Valid() && left.begun && right.begun && !left.taken
      ensures found ==> lRecords != [] && buff != [] && right.taken && right.rest != []
      ensures found ==> old(Pending()) == buff + (OneBlock(lRecords, right.rest[1..], how.value) + Later())
      ensures !found ==> Between() && lRecords == [] && Pending() == old(Pending())
      ensures !found ==> |left.rest| < |old(left.rest)| || (left.rest == old(left.rest) && old(lRecords) != [])
      decreases Repr, 2
    {
      hide Emitted, Valid, JoinState, OneBlock, Blocks, First, Behind;
      EndIff(left);
      ghost var p := Pending();
      if lRecords == [] {
        BlockTaken(left.rest, right.rest, right.all);
        FillBlock();
      }
      ghost var added := OneBlock(lRecords, right.rest, how.value);
      assert p == added + Later();
      MatchBlock();
      found := buff != [];
      if found {
        ghost var tail := OneBlock(lRecords, right.rest[1..], how.value);
        assert added == buff + tail;
        assert buff + tail + Later() == buff + (tail + Later());
        return;
      }
      assert added == [] && [] + Later() == Later();
      assert p == Later();
      DropBlock();
    }

    /** The end of a round: the block is cleared and the right child told to begin again. */
    method DropBlock()
      requires Tree() && IsJoin() && left.Valid() && right.Valid() && left.begun && right.begun && !left.taken
      requires right.rest == [] && !right.taken && buff == []
      modifies this`lRecords, right.Repr
      ensures Between() && lRecords == [] && left.rest == old(left.rest) && Pending() == old(Later())
      decreases Repr, 1
    {
      hide Emitted, Valid, JoinState, OneBlock, Blocks, First, Behind;
      NothingRead();
      EndIff(right);
      lRecords := [];
      right.BeginTuple();
    }

    /** Taking a block splits what was pending into the block's part and the later blocks' part. */
    lemma {:induction false} BlockTaken(ls: seq<Row>, rs: seq<Row>, all': seq<Row>)
      requires IsJoin() && bufferSize >= 1 && ls != []
      ensures var (b, h) := (bufferSize, how.value);
              && First(ls, b) != [] && |Behind(ls, b)| < |ls|
              && OneBlock(First(ls, b), rs, h) + [] == OneBlock(First(ls, b), rs, h)
              && Blocks(ls, all', b, h) == OneBlock(First(ls, b), all', h) + Blocks(Behind(ls, b), all', b, h)
    {
      hide OneBlock;
    }

    /** With no right row nothing is formed. */
    lemma {:induction false} NothingRead()
      requires IsJoin() && left != null && bufferSize >= 1
      ensures OneBlock(First(left.rest, bufferSize), [], how.value) == []
    {}

    /** With no left row nothing is formed. */
    lemma {:induction false} NothingLeft()
      requires IsJoin() && left != null && right != null && bufferSize >= 1 && left.rest == [] && lRecords == []
      ensures Pending() == []
    {
      EmptyBlock(right.rest, how.value);
      assert First(left.rest, bufferSize) == [];
    }

    method BeginTuple()
      requires Valid()
      modifies Repr
      ensures Valid() && begun && !taken
      ensures !IsJoin() || !old(begun) ==> rest == all
      ensures IsJoin() && old(begun && isend) ==> rest == []
      decreases Repr, 5
    {
      if IsJoin() {
        BeginJoin();
      } else {
        pos := 0;
        rest, begun, taken := rows, true, false;
      }
    }

    /** What beginning looks at: a join that never began has not ended, nor have its children begun. */
    lemma {:induction false} BeginFacts()
      requires IsJoin() && left != null && right != null && bufferSize >= 1 && JoinState()
      ensures !begun ==> !isend && !left.begun && !right.begun
      ensures begun && isend ==> rest == []
    {
      hide OneBlock, Blocks;
    }

    /** NestedLoopJoinExecutor::beginTuple: isend is not reset. */
    method BeginJoin()
      requires Valid() && IsJoin()
      modifies Repr
      ensures Valid() && begun && !taken
      ensures !old(begun) ==> rest == all
      ensures old(begun && isend) ==> rest == []
      decreases Repr, 4
    {
      hide Valid, JoinState, OneBlock, Blocks, First, Emitted, Pending;
      JoinParts();
      BeginFacts();
      BeginChildren();
      lRecords, buff := [], [];
      begun, taken := true, false;
      if !old(begun) { StartPending(); }
      MakeBuff();
    }

    method BeginChildren()
      requires Tree() && IsJoin() && left.Valid() && right.Valid()
      modifies left.Repr, right.Repr
      ensures Tree() && left.Valid() && right.Valid() && left.begun && right.begun && !left.taken && !right.taken
      ensures old(!left.begun && !right.begun) ==> left.rest == left.all && right.rest == right.all
      ensures !right.IsJoin() ==> right.rest == right.all
      decreases Repr, 3
    {
      hide Valid, JoinState, Emitted;
      left.BeginTuple();
      right.BeginTuple();
    }

    /** A join that begins has all its rows to form. */
    lemma {:induction false} StartPending()
      requires Tree() && IsJoin() && lRecords == [] && left.rest == left.all && right.rest == right.all
      ensures Pending() == all
    {
      hide OneBlock, Blocks, First;
    }

    method NextTuple()
      requires Valid() && begun && taken
      modifies Repr
      ensures Valid() && begun && !taken && rest == old(rest)[1..]
      decreases Repr, 5
    {
      if IsJoin() {
        NextJoin();
      } else {
        pos := pos + 1;
        rest, taken := rest[1..], false;
      }
    }

    /** NestedLoopJoinExecutor::nextTuple. */
    method NextJoin()
      requires Valid() && IsJoin() && begun && taken
      modifies Repr
      ensures Valid() && begun && !taken && rest == old(rest)[1..]
      decreases Repr, 4
    {
      hide Valid, OneBlock, Blocks, Emitted, First;
      JoinParts();
      EndIff(right);
      if isend || buff != [] {
        rest, taken := rest[1..], false;
        JoinValid();
        return;
      }
      taken := false;
      if !right.IsEnd() { right.NextTuple(); }
      MakeBuff();
    }

    method Next() returns (r: Row)
      requires Valid() && begun && !taken && !IsEnd()
      modifies this
      ensures Valid() && begun && taken && rest == old(rest) && r == rest[0]
    {
      if IsJoin() {
        r := TakeBuffered();
      } else {
        r := rows[pos];
        taken := true;
      }
    }

    /** NestedLoopJoinExecutor::Next: the front of the buffer. */
    method TakeBuffered() returns (r: Row)
      requires Valid() && IsJoin() && begun && !taken && !isend
      modifies this
      ensures Valid() && begun && taken && rest == old(rest) && r == rest[0]
    {
      hide Valid, OneBlock, Blocks, Emitted;
      JoinParts();
      r := buff[0];
      ghost var tail := OneBlock(lRecords, right.rest[1..], how.value) + Later();
      assert (buff + tail)[0] == r && (buff + tail)[1..] == buff[1..] + tail;
      taken := true;
      buff := buff[1..];
      JoinValid();
    }
  }

  lemma {:induction false} EmptyBlock<Row>(rs: seq<Row>, how: Match<Row>)
    ensures OneBlock([], rs, how) == []
  {
    if rs != [] { EmptyBlock(rs[1..], how); }
  }

  /** The loop of a consumer: begin, then is_end, Next, nextTuple. */
  method RunAll<Row>(e: Executor<Row>) returns (out: seq<Row>)
    requires e.Valid() && !e.begun
    modifies e.Repr
    ensures out == e.all
  {
    hide Executor.Valid;
    e.BeginTuple();
    out := [];
    e.EndIff(e);
    while !e.IsEnd()
      invariant e.Valid() && e.begun && !e.taken && out + e.rest == e.all && (e.IsEnd() <==> e.rest == [])
      decreases |e.rest|
    {
      var r := e.Next();
      assert out + e.rest == out + [r] + e.rest[1..];
      out := out + [r];
      e.NextTuple();
      e.EndIff(e);
    }
  }
}

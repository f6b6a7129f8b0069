/** Table locks without waiting: the lock table and the three operations on it (LockManager). */
module Locks {
  import opened Sets

  datatype Mode = S | X

  datatype LockStatus = LockStatus(sharedNum: int, mode: Mode)

  type LockTable = map<int, LockStatus>

  /** Granted, refused, or an exception for a transaction that runs READ UNCOMMITTED. */
  datatype Outcome = Granted | Refused | Aborted

  datatype Isolation = ReadUncommitted | Serializable

  datatype TxnState = Default | Growing | Shrinking | Committed | AbortedState

  /** New lock table and lock set after a request. */
  datatype Request = Request(table: LockTable, locks: set<int>, granted: bool)

  function SharedRequest(table: LockTable, locks: set<int>, fd: int): Request {
    if fd in locks then Request(table, locks, true)
    else if fd in table then
      if table[fd].mode == S
      then Request(table[fd := table[fd].(sharedNum := table[fd].sharedNum + 1)], locks + {fd}, true)
      else Request(table, locks, false)
    else Request(table[fd := LockStatus(1, S)], locks + {fd}, true)
  }

  function ExclusiveRequest(table: LockTable, locks: set<int>, fd: int): Request
    requires fd in locks ==> fd in table
  {
    if fd in locks then
      if table[fd].mode == S then
        if table[fd].sharedNum > 1 then Request(table, locks, false)
        else Request(table[fd := table[fd].(mode := X)], locks, true)
      else Request(table, locks, true)
    else if fd in table then Request(table, locks, false)
    else Request(table[fd := LockStatus(0, X)], locks + {fd}, true)
  }

  function Unlocked(table: LockTable, fd: int): LockTable {
    if fd !in table then table
    else if table[fd].mode == S then
      if table[fd].sharedNum - 1 <= 0 then table - {fd}
      else table[fd := table[fd].(sharedNum := table[fd].sharedNum - 1)]
    else table - {fd}
  }

  /** What a lock table entry says about the set of transactions that hold the lock. */
  ghost predicate EntryOK(table: LockTable, fd: int, holders: set<int>) {
    if fd !in table then holders == {}
    else if table[fd].mode == X then |holders| == 1
    else |holders| >= 1 && table[fd].sharedNum == |holders|
  }

  ghost predicate SameEntry(was: LockTable, now: LockTable, fd: int) {
    (fd in now <==> fd in was) && (fd in now ==> now[fd] == was[fd])
  }

  class Transaction {
    const id: int
    const isolation: Isolation
    var state: TxnState
    var lockSet: set<int>

    constructor (txnId: int, level: Isolation)
      ensures id == txnId && isolation == level && state == Default && lockSet == {}
    {
      id, isolation, state, lockSet := txnId, level, Default, {};
    }
  }

  class LockManager {
    var lockTable: LockTable

    /** LockManager::lock_shared_on_table.  `holders` are the transactions that hold the lock before. */
    method LockSharedOnTable(txn: Transaction, fd: int, ghost holders: set<int>) returns (r: Outcome)
      requires EntryOK(lockTable, fd, holders) && (fd in txn.lockSet <==> txn.id in holders)
      modifies this`lockTable, txn`state, txn`lockSet
      ensures r == Aborted <==> txn.isolation == ReadUncommitted
      ensures txn.state == if r == Aborted then AbortedState else Growing
      ensures r != Granted ==> lockTable == old(lockTable) && txn.lockSet == old(txn.lockSet)
      ensures r == Granted ==> EntryOK(lockTable, fd, holders + {txn.id}) && txn.lockSet == old(txn.lockSet) + {fd}
      ensures r != Aborted ==>
              && lockTable == SharedRequest(old(lockTable), old(txn.lockSet), fd).table
              && (r == Granted <==> SharedRequest(old(lockTable), old(txn.lockSet), fd).granted)
      ensures r == Refused ==> fd in lockTable && lockTable[fd].mode == X && txn.id !in holders
      ensures r == Granted ==> fd in lockTable && lockTable[fd].mode == if fd in old(lockTable) then old(lockTable)[fd].mode else S
      ensures r == Granted && lockTable[fd].mode == X ==> holders == {txn.id}
      ensures forall g :: g != fd ==> SameEntry(old(lockTable), lockTable, g)
    {
      if txn.isolation == ReadUncommitted {
        txn.state := AbortedState;
        return Aborted;
      }
      txn.state := Growing;
      if fd in txn.lockSet {
        assert holders + {txn.id} == holders;
        if |holders| == 1 { SoleHolder(holders, txn.id); }
        return Granted;
      }
      if fd in lockTable {
        if lockTable[fd].mode == S {
          lockTable := lockTable[fd := lockTable[fd].(sharedNum := lockTable[fd].sharedNum + 1)];
          txn.lockSet := txn.lockSet + {fd};
          return Granted;
        }
        return Refused;
      }
      txn.lockSet := txn.lockSet + {fd};
      lockTable := lockTable[fd := LockStatus(1, S)];
      return Granted;
    }

    /** LockManager::lock_exclusive_on_table. */
    method LockExclusiveOnTable(txn: Transaction, fd: int, ghost holders: set<int>) returns (r: Outcome)
      requires EntryOK(lockTable, fd, holders) && (fd in txn.lockSet <==> txn.id in holders)
      modifies this`lockTable, txn`state, txn`lockSet
      ensures r == Aborted <==> txn.isolation == ReadUncommitted
      ensures txn.state == if r == Aborted then AbortedState else Growing
      ensures r != Granted ==> lockTable == old(lockTable) && txn.lockSet == old(txn.lockSet)
      ensures r == Granted ==>
              && fd in lockTable && lockTable[fd].mode == X && EntryOK(lockTable, fd, {txn.id})
              && holders <= {txn.id} && txn.lockSet == old(txn.lockSet) + {fd}
      ensures r == Refused ==> exists other :: other in holders && other != txn.id
      ensures r != Aborted ==>
              && lockTable == ExclusiveRequest(old(lockTable), old(txn.lockSet), fd).table
              && (r == Granted <==> ExclusiveRequest(old(lockTable), old(txn.lockSet), fd).granted)
      ensures forall g :: g != fd ==> SameEntry(old(lockTable), lockTable, g)
    {
      if txn.isolation == ReadUncommitted {
        txn.state := AbortedState;
        return Aborted;
      }
      txn.state := Growing;
      if fd in txn.lockSet {
        var status := lockTable[fd];
        if status.mode == S {
          if status.sharedNum > 1 { OtherHolder(holders, txn.id); return Refused; }
          SoleHolder(holders, txn.id);
          status := status.(mode := X);
          lockTable := lockTable[fd := status];
          return Granted;
        }
        SoleHolder(holders, txn.id);
        return Granted;
      }
      if fd in lockTable { ghost var other := Pick(holders); return Refused; }
      txn.lockSet := txn.lockSet + {fd};
      lockTable := lockTable[fd := LockStatus(0, X)];
      return Granted;
    }

    /** LockManager::unlock; the transaction's own lock set is left alone. */
    method Unlock(txn: Transaction, fd: int, ghost holders: set<int>) returns (r: bool)
      requires EntryOK(lockTable, fd, holders) && txn.id in holders
      modifies this`lockTable, txn`state
      ensures r && txn.state == Shrinking
      ensures lockTable == Unlocked(old(lockTable), fd)
      ensures EntryOK(lockTable, fd, holders - {txn.id})
      ensures fd in lockTable ==> lockTable[fd].mode == S && fd in old(lockTable) && old(lockTable)[fd].mode == S
    {
      txn.state := Shrinking;
      SoleHolderIf(holders, txn.id);
      if fd !in lockTable { return false; }
      if lockTable[fd].mode == S {
        lockTable := lockTable[fd := lockTable[fd].(sharedNum := lockTable[fd].sharedNum - 1)];
        if lockTable[fd].sharedNum <= 0 {
          lockTable := lockTable - {fd};
        }
      } else {
        lockTable := lockTable - {fd};
      }
      return true;
    }

    /** The release loop at the end of commit and abort: every lock of the transaction goes, no other. */
    method ReleaseAll(txn: Transaction, commit: bool, ghost holders: map<int, set<int>>) returns (ghost order: seq<int>)
      requires forall fd :: fd in holders ==> EntryOK(lockTable, fd, holders[fd])
      requires forall fd :: fd in txn.lockSet ==> fd in holders && txn.id in holders[fd]
      modifies this`lockTable, txn`state, txn`lockSet
      ensures txn.lockSet == {} && txn.state == if commit then Committed else AbortedState
      ensures forall fd :: fd in order <==> fd in old(txn.lockSet)
      ensures forall fd :: fd in holders ==>
                EntryOK(lockTable, fd, if fd in old(txn.lockSet) then holders[fd] - {txn.id} else holders[fd])
      ensures forall fd :: fd !in old(txn.lockSet) ==> SameEntry(old(lockTable), lockTable, fd)
    {
      hide EntryOK, Unlocked;
      var todo := txn.lockSet;
      ghost var mine := txn.lockSet;
      order := [];
      while todo != {}
        invariant todo <= mine && txn.lockSet == mine
        invariant forall fd :: fd in order <==> fd in mine - todo
        invariant forall fd :: fd in holders ==>
                    EntryOK(lockTable, fd, if fd in mine - todo then holders[fd] - {txn.id} else holders[fd])
        invariant forall fd :: fd !in mine ==> SameEntry(old(lockTable), lockTable, fd)
        decreases |todo|
      {
        ghost var some := Pick(todo);
        var fd :| fd in todo;
        ghost var before := lockTable;
        var _ := Unlock(txn, fd, holders[fd]);
        todo := todo - {fd};
        order := order + [fd];
        forall g | g in holders
          ensures EntryOK(lockTable, g, if g in mine - todo then holders[g] - {txn.id} else holders[g])
        {
          if g != fd { UnlockedOther(before, fd, g, if g in mine - todo then holders[g] - {txn.id} else holders[g]); }
        }
        forall g | g !in mine ensures SameEntry(old(lockTable), lockTable, g) { UnlockedSame(before, fd, g); }
      }
      txn.lockSet := {};
      txn.state := if commit then Committed else AbortedState;
    }
  }

  lemma {:induction false} UnlockedSame(table: LockTable, fd: int, g: int)
    requires g != fd
    ensures SameEntry(table, Unlocked(table, fd), g)
  {}

  lemma {:induction false} UnlockedOther(table: LockTable, fd: int, g: int, h: set<int>)
    requires g != fd && EntryOK(table, g, h)
    ensures EntryOK(Unlocked(table, fd), g, h)
  {}

  lemma {:induction false} SoleHolder(h: set<int>, t: int)
    requires t in h && |h| == 1
    ensures h == {t}
  {
    var rest := h - {t};
    assert |rest| == 0;
    assert h == rest + {t};
  }

  lemma {:induction false} SoleHolderIf(h: set<int>, t: int)
    requires t in h
    ensures |h - {t}| == |h| - 1
    ensures |h| == 1 ==> h - {t} == {}
  {
    if |h| == 1 { SoleHolder(h, t); }
  }

  lemma {:induction false} OtherHolder(h: set<int>, t: int)
    requires |h| > 1
    ensures exists other :: other in h && other != t
  {
    if forall other :: other in h ==> other == t {
      SubsetSize(h, {t});
    }
  }
}

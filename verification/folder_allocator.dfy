/** `createUniqueFolder`: the names under the base directory are a finite set;
    the allocator tries `name`, then `name(1)`, `name(2)`, ... and claims the
    first one not in the set. */
module FolderAllocator {
  import opened Decimal

  /** The `k`-th name tried: the requested name itself, then `name(k)`. */
  function Candidate(name: string, k: nat): string {
    if k == 0 then name else name + "(" + NatToString(k) + ")"
  }

  /** Different attempts never produce the same name. */
  lemma CandidatesDistinct(name: string, i: nat, j: nat)
    requires i != j
    ensures Candidate(name, i) != Candidate(name, j)
  {
    if Candidate(name, i) == Candidate(name, j) && i != 0 && j != 0 {
      var c := Candidate(name, i);
      assert NatToString(i) == c[|name| + 1 .. |c| - 1];
      assert NatToString(j) == c[|name| + 1 .. |c| - 1];
      NatToStringInjective(i, j);
    }
  }

  /** Attempt `k` is the one the allocator settles on: it is free and every
      earlier attempt is taken. */
  ghost predicate IsLeastFree(taken: set<string>, name: string, k: nat) {
    && Candidate(name, k) !in taken
    && forall j :: 0 <= j < k ==> Candidate(name, j) in taken
  }

  lemma LeastFreeUnique(taken: set<string>, name: string, k1: nat, k2: nat)
    requires IsLeastFree(taken, name, k1) && IsLeastFree(taken, name, k2)
    ensures k1 == k2
  {
  }

  /** The first free attempt at or after `k`. Each taken candidate is dropped
      from the set as it is passed, so the search ends. */
  function FirstFreeFrom(taken: set<string>, name: string, k: nat): (r: nat)
    ensures k <= r
    ensures Candidate(name, r) !in taken
    ensures forall j :: k <= j < r ==> Candidate(name, j) in taken
    decreases taken
  {
    if Candidate(name, k) !in taken then k
    else
      var r := FirstFreeFrom(taken - {Candidate(name, k)}, name, k + 1);
      CandidatesDistinct(name, k, r);
      r
  }

  /** The attempt the allocator settles on. */
  function FirstFree(taken: set<string>, name: string): (k: nat)
    ensures IsLeastFree(taken, name, k)
  {
    FirstFreeFrom(taken, name, 0)
  }

  /** The loop of `createUniqueFolder` as written: probe the current
      candidate, move to the next suffix while it exists, then create it. */
  method CreateUniqueFolder(taken: set<string>, name: string) returns (folder: string, after: set<string>)
    ensures folder !in taken
    ensures after == taken + {folder}
    ensures name !in taken ==> folder == name
    ensures exists k :: IsLeastFree(taken, name, k) && folder == Candidate(name, k)
  {
    ghost var bound := FirstFree(taken, name);
    var folderPath := name;
    var counter := 1;
    while folderPath in taken
      invariant 1 <= counter <= bound + 1
      invariant folderPath == Candidate(name, counter - 1)
      invariant forall j :: 0 <= j < counter - 1 ==> Candidate(name, j) in taken
      decreases bound + 1 - counter
    {
      folderPath := name + "(" + NatToString(counter) + ")";
      counter := counter + 1;
    }
    folder := folderPath;
    after := taken + {folderPath};
    assert IsLeastFree(taken, name, counter - 1);
  }

  /** The folders handed out by `n` successive calls with the same name, and
      the set of names afterwards. */
  function AllocateRepeatedly(taken: set<string>, name: string, n: nat): (seq<string>, set<string>)
    decreases n
  {
    if n == 0 then ([], taken)
    else
      var (folders, now) := AllocateRepeatedly(taken, name, n - 1);
      var folder := Candidate(name, FirstFree(now, name));
      (folders + [folder], now + {folder})
  }

  /** The names of the first `n` attempts. */
  function FirstCandidates(name: string, n: nat): set<string> {
    set i | 0 <= i < n :: Candidate(name, i)
  }

  lemma FirstCandidatesGrow(name: string, n: nat)
    requires n > 0
    ensures FirstCandidates(name, n) == FirstCandidates(name, n - 1) + {Candidate(name, n - 1)}
  {
  }

  /** Starting with none of `name`, `name(1)`, ..., `name(n-1)` taken, `n`
      successive calls hand out exactly those names, in that order, all
      different, and claim nothing else. */
  lemma SequentialAllocations(taken: set<string>, name: string, n: nat)
    requires forall j :: 0 <= j < n ==> Candidate(name, j) !in taken
    ensures |AllocateRepeatedly(taken, name, n).0| == n
    ensures forall i :: 0 <= i < n ==> AllocateRepeatedly(taken, name, n).0[i] == Candidate(name, i)
    ensures forall i, j :: 0 <= i < j < n ==> AllocateRepeatedly(taken, name, n).0[i] != AllocateRepeatedly(taken, name, n).0[j]
    ensures AllocateRepeatedly(taken, name, n).1 == taken + FirstCandidates(name, n)
  {
    AllocationsInOrder(taken, name, n);
    var folders := AllocateRepeatedly(taken, name, n).0;
    forall i, j | 0 <= i < j < n
      ensures folders[i] != folders[j]
    {
      CandidatesDistinct(name, i, j);
    }
  }

  lemma {:induction false} AllocationsInOrder(taken: set<string>, name: string, n: nat)
    requires forall j :: 0 <= j < n ==> Candidate(name, j) !in taken
    ensures |AllocateRepeatedly(taken, name, n).0| == n
    ensures forall i :: 0 <= i < n ==> AllocateRepeatedly(taken, name, n).0[i] == Candidate(name, i)
    ensures AllocateRepeatedly(taken, name, n).1 == taken + FirstCandidates(name, n)
    decreases n, 1
  {
    if n > 0 {
      NextOfAllocations(taken, name, n);
    }
  }

  lemma {:induction false} NextOfAllocations(taken: set<string>, name: string, n: nat)
    requires n > 0
    requires forall j :: 0 <= j < n ==> Candidate(name, j) !in taken
    ensures |AllocateRepeatedly(taken, name, n).0| == n
    ensures forall i :: 0 <= i < n ==> AllocateRepeatedly(taken, name, n).0[i] == Candidate(name, i)
    ensures AllocateRepeatedly(taken, name, n).1 == taken + FirstCandidates(name, n)
    decreases n, 0
  {
    AllocationsInOrder(taken, name, n - 1);
    var now := AllocateRepeatedly(taken, name, n - 1).1;
    NextAllocation(taken, name, n - 1, now);
    FirstCandidatesGrow(name, n);
  }

  /** After attempts `0 .. m-1` have been claimed, the next call claims attempt `m`. */
  lemma NextAllocation(taken: set<string>, name: string, m: nat, now: set<string>)
    requires Candidate(name, m) !in taken
    requires now == taken + FirstCandidates(name, m)
    ensures FirstFree(now, name) == m
  {
    forall i | 0 <= i < m
      ensures Candidate(name, m) != Candidate(name, i)
    {
      CandidatesDistinct(name, m, i);
    }
    assert IsLeastFree(now, name, m);
    LeastFreeUnique(now, name, m, FirstFree(now, name));
  }
}

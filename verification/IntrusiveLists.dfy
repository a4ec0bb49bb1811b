/** Singly linked lists threaded through one next array, and the hash chains of the sleep
    queue as such lists. */
module IntrusiveLists {
  import opened Collections
  import opened Threads

  /** From head, following next, come exactly the threads of s, and then -1. */
  ghost predicate IsList(head: int, next: seq<int>, s: seq<Tid>) {
    && (forall i :: 0 <= i < |s| ==> 0 < s[i] < |next|)
    && (if s == [] then head == -1 else head == s[0] && next[s[|s| - 1]] == -1)
    && (forall i :: 0 <= i < |s| - 1 ==> next[s[i]] == s[i + 1])
  }

  lemma SameList(head: int, next: seq<int>, next': seq<int>, s: seq<Tid>)
    requires IsList(head, next, s) && |next| == |next'|
    requires forall t :: t in s ==> next'[t] == next[t]
    ensures IsList(head, next', s)
  {
  }

  lemma TailOfList(head: int, next: seq<int>, s: seq<Tid>)
    requires IsList(head, next, s) && NoDuplicates(s) && s != []
    ensures head == s[0] && 0 < s[0] < |next| && IsList(next[s[0]], next, s[1..])
    ensures NoDuplicates(s[1..]) && forall t :: t in s[1..] ==> t in s
    ensures |s| > 1 ==> s[1..][|s| - 2] == s[|s| - 1] && s[0] != s[|s| - 1]
  {
  }

  lemma LastOfList(head: int, next: seq<int>, s: seq<Tid>, k: nat)
    requires IsList(head, next, s) && k < |s|
    ensures s[k] < |next|
    ensures next[s[k]] <= 0 ==> k == |s| - 1
  {
    if k < |s| - 1 {
      assert next[s[k]] == s[k + 1] && s[k + 1] > 0;
    }
  }

  lemma AppendToList(head: int, next: seq<int>, s: seq<Tid>, t: Tid)
    requires IsList(head, next, s) && NoDuplicates(s) && t !in s && 0 < t < |next|
    ensures s == [] ==> IsList(t, next[t := -1], [t])
    ensures s != [] ==> IsList(head, next[t := -1][s[|s| - 1] := t], s + [t])
  {
  }

  lemma RemoveFromList(head: int, next: seq<int>, s: seq<Tid>, k: nat)
    requires IsList(head, next, s) && NoDuplicates(s) && k < |s|
    ensures IsList(if k == 0 then next[s[0]] else head,
                   if k == 0 then next else next[s[k - 1] := next[s[k]]],
                   RemoveAt(s, k))
    ensures k == 0 || s[k - 1] != s[k]
  {
    var r := RemoveAt(s, k);
    var next' := if k == 0 then next else next[s[k - 1] := next[s[k]]];
    forall i | 0 <= i < |r| - 1 ensures next'[r[i]] == r[i + 1] {
      if i < k - 1 {
        assert r[i] == s[i] && r[i + 1] == s[i + 1];
      } else if i == k - 1 {
        assert r[i] == s[k - 1] && r[i + 1] == s[k + 1];
        assert next[s[k]] == s[k + 1];
      } else {
        assert r[i] == s[i + 1] && r[i + 1] == s[i + 2];
      }
    }
    if r != [] {
      if k == |s| - 1 {
        assert r[|r| - 1] == s[k - 1];
      } else {
        assert r[|r| - 1] == s[|s| - 1];
      }
    }
  }

  /** The hash slot of a resource in a table of this size. */
  function Hash(r: nat, size: nat): (h: nat)
    requires size > 0
    ensures h < size
  {
    r % size
  }

  /** The waiters whose resource hashes to h, oldest first. */
  ghost function ChainOf(waiting: seq<Tid>, sleepsOn: seq<nat>, size: nat, h: nat): seq<Tid>
    requires size > 0
  {
    if waiting == [] then []
    else (if waiting[0] < |sleepsOn| && Hash(sleepsOn[waiting[0]], size) == h then [waiting[0]] else [])
         + ChainOf(waiting[1..], sleepsOn, size, h)
  }

  lemma ChainHead(waiting: seq<Tid>, s: seq<nat>, size: nat, h: nat)
    requires size > 0 && waiting != []
    ensures var c, c1 := ChainOf(waiting, s, size, h), ChainOf(waiting[1..], s, size, h);
            if waiting[0] < |s| && Hash(s[waiting[0]], size) == h
            then c != [] && c[0] == waiting[0] && c[1..] == c1
            else c == c1
  {
  }

  lemma {:induction false} ChainMembers(waiting: seq<Tid>, s: seq<nat>, size: nat, h: nat)
    requires size > 0
    ensures forall t :: t in ChainOf(waiting, s, size, h) <==> t in waiting && t < |s| && Hash(s[t], size) == h
  {
    hide Hash;
    if waiting != [] {
      ChainMembers(waiting[1..], s, size, h);
      assert forall t :: t in waiting <==> t == waiting[0] || t in waiting[1..];
    }
  }

  lemma {:induction false} ChainNoDuplicates(waiting: seq<Tid>, s: seq<nat>, size: nat, h: nat)
    requires size > 0 && NoDuplicates(waiting)
    ensures NoDuplicates(ChainOf(waiting, s, size, h))
  {
    hide Hash;
    if waiting != [] {
      ChainNoDuplicates(waiting[1..], s, size, h);
      ChainMembers(waiting[1..], s, size, h);
      assert waiting[0] !in waiting[1..];
    }
  }

  lemma {:induction false} ChainAppend(waiting: seq<Tid>, t: Tid, s: seq<nat>, size: nat, h: nat)
    requires size > 0 && t < |s|
    ensures ChainOf(waiting + [t], s, size, h)
            == ChainOf(waiting, s, size, h) + if Hash(s[t], size) == h then [t] else []
    decreases waiting, 1
  {
    hide Hash;
    if waiting == [] {
      assert ([] + [t])[1..] == [];
    } else {
      ChainAppendStep(waiting, t, s, size, h);
    }
  }

  lemma {:induction false} ChainAppendStep(waiting: seq<Tid>, t: Tid, s: seq<nat>, size: nat, h: nat)
    requires size > 0 && t < |s| && waiting != []
    ensures ChainOf(waiting + [t], s, size, h)
            == ChainOf(waiting, s, size, h) + if Hash(s[t], size) == h then [t] else []
    decreases waiting, 0
  {
    hide Hash, ChainOf;
    assert (waiting + [t])[1..] == waiting[1..] + [t];
    ChainAppend(waiting[1..], t, s, size, h);
    ChainHead(waiting + [t], s, size, h);
    ChainHead(waiting, s, size, h);
  }

  lemma {:induction false} ChainSame(waiting: seq<Tid>, s: seq<nat>, s': seq<nat>, size: nat, h: nat)
    requires size > 0 && |s| == |s'|
    requires forall t :: t in waiting && t < |s| ==> s[t] == s'[t]
    ensures ChainOf(waiting, s, size, h) == ChainOf(waiting, s', size, h)
  {
    hide Hash;
    if waiting != [] {
      assert waiting[0] in waiting;
      ChainSame(waiting[1..], s, s', size, h);
    }
  }

  lemma SearchHead(waiting: seq<Tid>, s: seq<nat>, r: nat)
    requires waiting != []
    ensures FirstWaiter(waiting, s, r)
            == if waiting[0] < |s| && s[waiting[0]] == r then 0 else 1 + FirstWaiter(waiting[1..], s, r)
  {
  }

  /** The search of one hash chain finds the thread a search of the whole queue would find. */
  lemma {:induction false} SearchChain(waiting: seq<Tid>, s: seq<nat>, size: nat, r: nat)
    requires size > 0
    ensures var c := ChainOf(waiting, s, size, Hash(r, size));
            var i, k := FirstWaiter(waiting, s, r), FirstWaiter(c, s, r);
            && (i < |waiting| <==> k < |c|)
            && (i < |waiting| ==> c[k] == waiting[i])
    decreases waiting, 1
  {
    if waiting != [] {
      SearchChainStep(waiting, s, size, r);
    }
  }

  lemma {:induction false} SearchChainStep(waiting: seq<Tid>, s: seq<nat>, size: nat, r: nat)
    requires size > 0 && waiting != []
    ensures var c := ChainOf(waiting, s, size, Hash(r, size));
            var i, k := FirstWaiter(waiting, s, r), FirstWaiter(c, s, r);
            && (i < |waiting| <==> k < |c|)
            && (i < |waiting| ==> c[k] == waiting[i])
    decreases waiting, 0
  {
    hide Hash, ChainOf, FirstWaiter;
    var c := ChainOf(waiting, s, size, Hash(r, size));
    SearchChain(waiting[1..], s, size, r);
    SearchHead(waiting, s, r);
    ChainHead(waiting, s, size, Hash(r, size));
    if c != [] {
      SearchHead(c, s, r);
    }
  }

  lemma {:induction false} OtherChainWithout(waiting: seq<Tid>, s: seq<nat>, size: nat, i: nat, h: nat)
    requires size > 0 && i < |waiting| && waiting[i] < |s| && Hash(s[waiting[i]], size) != h
    ensures ChainOf(RemoveAt(waiting, i), s, size, h) == ChainOf(waiting, s, size, h)
  {
    hide RemoveAt, Hash;
    if i == 0 {
      RemoveFirst(waiting);
    } else {
      RemoveAtTail(waiting, i);
      OtherChainWithout(waiting[1..], s, size, i - 1, h);
    }
  }

  lemma {:induction false} OwnChainWithout(waiting: seq<Tid>, s: seq<nat>, size: nat, r: nat)
    requires size > 0 && FirstWaiter(waiting, s, r) < |waiting|
    ensures var i, c := FirstWaiter(waiting, s, r), ChainOf(waiting, s, size, Hash(r, size));
            && FirstWaiter(c, s, r) < |c|
            && ChainOf(RemoveAt(waiting, i), s, size, Hash(r, size)) == RemoveAt(c, FirstWaiter(c, s, r))
  {
    hide RemoveAt, Hash, ChainOf, FirstWaiter;
    var h := Hash(r, size);
    var i, c := FirstWaiter(waiting, s, r), ChainOf(waiting, s, size, h);
    SearchChain(waiting, s, size, r);
    ChainHead(waiting, s, size, h);
    SearchHead(waiting, s, r);
    SearchHead(c, s, r);
    if i == 0 {
      RemoveFirst(waiting);
      RemoveFirst(c);
    } else {
      RemoveAtTail(waiting, i);
      OwnChainWithout(waiting[1..], s, size, r);
      ChainHead(RemoveAt(waiting, i), s, size, h);
      if c != ChainOf(waiting[1..], s, size, h) {
        RemoveAtTail(c, FirstWaiter(c, s, r));
      }
    }
  }

  /** Every hash slot heads the list of its chain. */
  ghost predicate ChainsOk(table: seq<int>, next: seq<int>, waiting: seq<Tid>, s: seq<nat>) {
    && |table| > 0 && |next| == |s|
    && (forall h :: 0 <= h < |table| ==> IsList(table[h], next, ChainOf(waiting, s, |table|, h)))
  }

  lemma SameChains(table: seq<int>, next: seq<int>, next': seq<int>, waiting: seq<Tid>, s: seq<nat>, s': seq<nat>)
    requires ChainsOk(table, next, waiting, s) && |next| == |next'| && |s| == |s'|
    requires forall t :: t in waiting && t < |s| ==> next'[t] == next[t] && s'[t] == s[t]
    ensures ChainsOk(table, next', waiting, s')
  {
    hide Hash, ChainOf, FirstWaiter;
    forall h | 0 <= h < |table| ensures IsList(table[h], next', ChainOf(waiting, s', |table|, h)) {
      ChainSame(waiting, s, s', |table|, h);
      ChainMembers(waiting, s, |table|, h);
      SameList(table[h], next, next', ChainOf(waiting, s, |table|, h));
    }
  }

  lemma OtherChain(waiting: seq<Tid>, s: seq<nat>, size: nat, g: nat, h: nat, t: Tid)
    requires size > 0 && g != h && t in ChainOf(waiting, s, size, h)
    ensures t !in ChainOf(waiting, s, size, g)
  {
    hide Hash;
    ChainMembers(waiting, s, size, g);
    ChainMembers(waiting, s, size, h);
  }

  /** Linking t at the end of its chain, the first of the two cases. */
  lemma LinkEmptyChain(table: seq<int>, next: seq<int>, waiting: seq<Tid>, s: seq<nat>, t: Tid)
    requires ChainsOk(table, next, waiting, s) && t !in waiting && 0 < t < |s| && next[t] == -1
    requires ChainOf(waiting, s, |table|, Hash(s[t], |table|)) == []
    ensures ChainsOk(table[Hash(s[t], |table|) := t], next, waiting + [t], s)
  {
    hide Hash, ChainOf, FirstWaiter;
    forall g | 0 <= g < |table|
      ensures IsList(table[Hash(s[t], |table|) := t][g], next, ChainOf(waiting + [t], s, |table|, g))
    {
      ChainAppend(waiting, t, s, |table|, g);
      assert IsList(table[g], next, ChainOf(waiting, s, |table|, g));
      assert ChainOf(waiting, s, |table|, g) + [] == ChainOf(waiting, s, |table|, g);
    }
  }

  lemma LinkChain(table: seq<int>, next: seq<int>, waiting: seq<Tid>, s: seq<nat>, t: Tid)
    requires ChainsOk(table, next, waiting, s) && NoDuplicates(waiting) && t !in waiting && 0 < t < |s|
    requires next[t] == -1
    requires ChainOf(waiting, s, |table|, Hash(s[t], |table|)) != []
    ensures var c := ChainOf(waiting, s, |table|, Hash(s[t], |table|));
            c[|c| - 1] < |next| && ChainsOk(table, next[c[|c| - 1] := t], waiting + [t], s)
  {
    hide Hash, IsList, ChainOf, FirstWaiter;
    var h := Hash(s[t], |table|);
    var c := ChainOf(waiting, s, |table|, h);
    var last := c[|c| - 1];
    assert IsList(table[h], next, c);
    assert last in c;
    ListBounds(table[h], next, c);
    ChainNoDuplicates(waiting, s, |table|, h);
    ChainMembers(waiting, s, |table|, h);
    forall g | 0 <= g < |table|
      ensures IsList(table[g], next[last := t], ChainOf(waiting + [t], s, |table|, g))
    {
      ChainAppend(waiting, t, s, |table|, g);
      if g == h {
        AppendToList(table[h], next, c, t);
        assert next[t := -1] == next;
      } else {
        OtherChain(waiting, s, |table|, g, h, last);
        assert ChainOf(waiting, s, |table|, g) + [] == ChainOf(waiting, s, |table|, g);
        assert IsList(table[g], next, ChainOf(waiting, s, |table|, g));
        ListBounds(table[g], next, ChainOf(waiting, s, |table|, g));
        SameList(table[g], next, next[last := t], ChainOf(waiting, s, |table|, g));
      }
    }
  }

  lemma ListBounds(head: int, next: seq<int>, s: seq<Tid>)
    requires IsList(head, next, s)
    ensures forall t :: t in s ==> 0 < t < |next|
  {
  }

  /** Unlinking the waiter the search found, at position k of its chain. */
  lemma UnlinkHead(table: seq<int>, next: seq<int>, waiting: seq<Tid>, s: seq<nat>, r: nat)
    requires ChainsOk(table, next, waiting, s)
    requires FirstWaiter(waiting, s, r) < |waiting|
    requires FirstWaiter(ChainOf(waiting, s, |table|, Hash(r, |table|)), s, r) == 0
    ensures var t := waiting[FirstWaiter(waiting, s, r)];
            && t < |next|
            && ChainsOk(table[Hash(r, |table|) := next[t]], next, RemoveAt(waiting, FirstWaiter(waiting, s, r)), s)
  {
    hide Hash, RemoveAt, ChainOf, FirstWaiter;
    var h := Hash(r, |table|);
    var c := ChainOf(waiting, s, |table|, h);
    var i := FirstWaiter(waiting, s, r);
    SearchChain(waiting, s, |table|, r);
    forall g | 0 <= g < |table|
      ensures IsList(table[h := next[c[0]]][g], next, ChainOf(RemoveAt(waiting, i), s, |table|, g))
    {
      if g == h {
        OwnChainWithout(waiting, s, |table|, r);
        RemoveFirst(c);
        assert IsList(next[c[0]], next, c[1..]);
      } else {
        OtherChainWithout(waiting, s, |table|, i, g);
      }
    }
  }

  lemma UnlinkInside(table: seq<int>, next: seq<int>, waiting: seq<Tid>, s: seq<nat>, r: nat, k: nat)
    requires ChainsOk(table, next, waiting, s) && NoDuplicates(waiting)
    requires FirstWaiter(waiting, s, r) < |waiting|
    requires FirstWaiter(ChainOf(waiting, s, |table|, Hash(r, |table|)), s, r) == k > 0
    ensures var c := ChainOf(waiting, s, |table|, Hash(r, |table|));
            && k < |c| && c[k] == waiting[FirstWaiter(waiting, s, r)]
            && c[k] < |next| && c[k - 1] < |next| && c[k - 1] != c[k]
            && ChainsOk(table, next[c[k - 1] := next[c[k]]], RemoveAt(waiting, FirstWaiter(waiting, s, r)), s)
  {
    hide Hash, RemoveAt, IsList, ChainOf, FirstWaiter;
    var h := Hash(r, |table|);
    var c := ChainOf(waiting, s, |table|, h);
    var i := FirstWaiter(waiting, s, r);
    SearchChain(waiting, s, |table|, r);
    ChainNoDuplicates(waiting, s, |table|, h);
    assert IsList(table[h], next, c);
    ListBounds(table[h], next, c);
    assert c[k] in c && c[k - 1] in c;
    var next' := next[c[k - 1] := next[c[k]]];
    forall g | 0 <= g < |table|
      ensures IsList(table[g], next', ChainOf(RemoveAt(waiting, i), s, |table|, g))
    {
      assert IsList(table[g], next, ChainOf(waiting, s, |table|, g));
      if g == h {
        OwnChainWithout(waiting, s, |table|, r);
        RemoveFromList(table[h], next, c, k);
      } else {
        OtherChainWithout(waiting, s, |table|, i, g);
        OtherChain(waiting, s, |table|, g, h, c[k - 1]);
        ListBounds(table[g], next, ChainOf(waiting, s, |table|, g));
        SameList(table[g], next, next', ChainOf(waiting, s, |table|, g));
      }
    }
  }
}

/** Facts about sequences without duplicates and about the sizes of sets. */
module Collections {
  ghost predicate NoDuplicates<T>(s: seq<T>) {
    forall i, j :: 0 <= i < j < |s| ==> s[i] != s[j]
  }

  lemma AppendNoDuplicates(s: seq<nat>, t: nat)
    requires NoDuplicates(s) && t !in s
    ensures NoDuplicates(s + [t])
  {
  }

  lemma JoinHasNoDuplicates(s: seq<nat>, t: seq<nat>)
    requires NoDuplicates(s) && NoDuplicates(t)
    requires forall x :: x in s ==> x !in t
    ensures NoDuplicates(s + t)
  {
    forall i, j | 0 <= i < j < |s + t| ensures (s + t)[i] != (s + t)[j] {
      if i < |s| <= j {
        assert (s + t)[i] in s && (s + t)[j] in t;
      }
    }
  }

  function RemoveAt(s: seq<nat>, i: nat): (r: seq<nat>)
    requires i < |s|
    ensures |r| == |s| - 1
  {
    s[..i] + s[i + 1..]
  }

  lemma RemoveAtMembers(s: seq<nat>, i: nat)
    requires NoDuplicates(s) && i < |s|
    ensures NoDuplicates(RemoveAt(s, i))
    ensures forall t :: t in RemoveAt(s, i) <==> t in s && t != s[i]
  {
    var r := RemoveAt(s, i);
    forall t ensures t in r <==> t in s && t != s[i] {
      if t in r {
        var k :| 0 <= k < |r| && r[k] == t;
        assert t == s[if k < i then k else k + 1];
      }
      if t in s && t != s[i] {
        var k :| 0 <= k < |s| && s[k] == t;
        assert r[if k < i then k else k - 1] == t;
      }
    }
  }

  lemma TailMembers(s: seq<nat>)
    requires NoDuplicates(s) && s != []
    ensures NoDuplicates(s[1..])
    ensures forall t :: t in s[1..] <==> t in s && t != s[0]
  {
    RemoveAtMembers(s, 0);
    RemoveFirst(s);
  }

  lemma RemoveFirst(s: seq<nat>)
    requires s != []
    ensures RemoveAt(s, 0) == s[1..]
  {
  }

  lemma RemoveAtTail(s: seq<nat>, i: nat)
    requires 0 < i < |s|
    ensures RemoveAt(s, i) != [] && RemoveAt(s, i)[0] == s[0] && RemoveAt(s, i)[1..] == RemoveAt(s[1..], i - 1)
    ensures RemoveAt(s, i) == [s[0]] + RemoveAt(s[1..], i - 1)
  {
  }

  ghost function Elements(s: seq<nat>): set<nat> {
    set t | t in s
  }

  lemma {:induction false} SizeOfElements(s: seq<nat>)
    requires NoDuplicates(s)
    ensures |Elements(s)| == |s|
  {
    if s != [] {
      TailMembers(s);
      SizeOfElements(s[1..]);
      assert Elements(s) == Elements(s[1..]) + {s[0]};
    }
  }

  lemma SubsetIsSmaller(a: set<nat>, b: set<nat>)
    requires a <= b
    ensures |a| <= |b|
  {
    assert b == a + (b - a);
  }
}

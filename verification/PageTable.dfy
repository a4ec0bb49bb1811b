/** A thread's page table: entries that map an even and an odd page each. */
module PageTables {
  import opened Collections

  /** pfn, writable and valid bits of the even page (0) and the odd page (1). */
  datatype Entry = Entry(vpn2: nat, asid: nat, pfn0: nat, d0: nat, v0: nat, pfn1: nat, d1: nat, v1: nat)

  datatype Mapping = Mapping(frame: nat, writable: bool)

  datatype Result = Done | Panic

  /** The pair of a virtual address and which half of it. */
  function PairOf(vaddr: nat): nat {
    vaddr / 8192
  }

  predicate IsEven(vaddr: nat) {
    vaddr / 4096 % 2 == 0
  }

  function PageOf(vaddr: nat): nat {
    vaddr / 4096
  }

  lemma PageIs(vaddr: nat)
    ensures PageOf(vaddr) == 2 * PairOf(vaddr) + if IsEven(vaddr) then 0 else 1
  {
  }

  /** The page of entry e's even or odd half. */
  function HalfPage(e: Entry, odd: bool): nat {
    2 * e.vpn2 + if odd then 1 else 0
  }

  predicate HalfValid(e: Entry, odd: bool) {
    if odd then e.v1 != 0 else e.v0 != 0
  }

  function Half(e: Entry, odd: bool): Mapping {
    if odd then Mapping(e.pfn1, e.d1 != 0) else Mapping(e.pfn0, e.d0 != 0)
  }

  /** What one entry maps. */
  function EntryMap(e: Entry): map<nat, Mapping> {
    var m0 := if HalfValid(e, false) then map[HalfPage(e, false) := Half(e, false)] else map[];
    if HalfValid(e, true) then m0[HalfPage(e, true) := Half(e, true)] else m0
  }

  /** The pages the table maps, with their frames and write permissions. */
  function Bindings(entries: seq<Entry>): map<nat, Mapping> {
    if entries == [] then map[] else Bindings(entries[..|entries| - 1]) + EntryMap(entries[|entries| - 1])
  }

  ghost predicate Distinct(entries: seq<Entry>) {
    && (forall i, j :: 0 <= i < j < |entries| ==> entries[i].vpn2 != entries[j].vpn2)
    && (forall i :: 0 <= i < |entries| ==> entries[i].v0 != 0 || entries[i].v1 != 0)
  }

  /** With distinct pairs the table is a map, entry by entry. */
  lemma {:induction false} BindingsAre(entries: seq<Entry>, page: nat)
    requires Distinct(entries)
    ensures page in Bindings(entries) <==> exists i :: 0 <= i < |entries| && page in EntryMap(entries[i])
    ensures forall i :: 0 <= i < |entries| && page in EntryMap(entries[i]) ==>
              Bindings(entries)[page] == EntryMap(entries[i])[page]
  {
    if entries != [] {
      var rest, last := entries[..|entries| - 1], entries[|entries| - 1];
      BindingsAre(rest, page);
      forall i | 0 <= i < |entries| && page in EntryMap(entries[i])
        ensures page in Bindings(entries) && Bindings(entries)[page] == EntryMap(entries[i])[page]
      {
        if i < |rest| {
          assert rest[i] == entries[i];
        }
      }
    }
  }

  lemma HalfKeys(e: Entry, page: nat)
    ensures page in EntryMap(e) <==> page / 2 == e.vpn2 && HalfValid(e, page % 2 == 1)
    ensures page in EntryMap(e) ==> EntryMap(e)[page] == Half(e, page % 2 == 1)
  {
  }

  /** Which pages a table with distinct pairs maps, and to what. */
  lemma PageMapped(entries: seq<Entry>, i: nat, page: nat)
    requires Distinct(entries) && i < |entries| && entries[i].vpn2 == page / 2
    ensures page in Bindings(entries) <==> HalfValid(entries[i], page % 2 == 1)
    ensures page in Bindings(entries) ==> Bindings(entries)[page] == Half(entries[i], page % 2 == 1)
  {
    BindingsAre(entries, page);
    forall j | 0 <= j < |entries| ensures page in EntryMap(entries[j]) <==> j == i && HalfValid(entries[i], page % 2 == 1) {
      HalfKeys(entries[j], page);
    }
    HalfKeys(entries[i], page);
  }

  /** What a page is translated to, by the bits of the entries: a page is mapped to a frame
      exactly if the entry of its pair says so in the page's own half, with the valid bit set. */
  lemma Translates(entries: seq<Entry>, page: nat, frame: nat, writable: bool)
    requires Distinct(entries)
    ensures (page in Bindings(entries) && Bindings(entries)[page] == Mapping(frame, writable))
            <==> exists i :: 0 <= i < |entries| && entries[i].vpn2 == page / 2
                             && if page % 2 == 0
                                then entries[i].v0 != 0 && entries[i].pfn0 == frame && (entries[i].d0 != 0 <==> writable)
                                else entries[i].v1 != 0 && entries[i].pfn1 == frame && (entries[i].d1 != 0 <==> writable)
  {
    hide Bindings, EntryMap;
    if i: nat :| i < |entries| && entries[i].vpn2 == page / 2 {
      PageMapped(entries, i, page);
    } else {
      PageNotMapped(entries, page);
    }
  }

  lemma PageNotMapped(entries: seq<Entry>, page: nat)
    requires Distinct(entries) && forall i :: 0 <= i < |entries| ==> entries[i].vpn2 != page / 2
    ensures page !in Bindings(entries)
  {
    BindingsAre(entries, page);
    forall j | 0 <= j < |entries| ensures page !in EntryMap(entries[j]) {
      HalfKeys(entries[j], page);
    }
  }

  /** Writing one half of an entry changes one binding. */
  lemma HalfWritten(entries: seq<Entry>, i: nat, e: Entry, page: nat)
    requires Distinct(entries) && i < |entries| && entries[i].vpn2 == e.vpn2 == page / 2
    requires var odd := page % 2 == 1;
             HalfValid(e, odd) && HalfValid(e, !odd) == HalfValid(entries[i], !odd) && Half(e, !odd) == Half(entries[i], !odd)
    ensures Distinct(entries[i := e])
    ensures Bindings(entries[i := e]) == Bindings(entries)[page := Half(e, page % 2 == 1)]
  {
    var new', m := entries[i := e], Bindings(entries)[page := Half(e, page % 2 == 1)];
    forall q: nat
      ensures q in Bindings(new') <==> q in m
      ensures q in m ==> Bindings(new')[q] == m[q]
    {
      if q / 2 == e.vpn2 {
        PageMapped(entries, i, q);
        PageMapped(new', i, q);
      } else {
        SameElsewhere(entries, i, e, q);
      }
    }
  }

  lemma SameElsewhere(entries: seq<Entry>, i: nat, e: Entry, q: nat)
    requires Distinct(entries) && i < |entries| && entries[i].vpn2 == e.vpn2 != q / 2 && Distinct(entries[i := e])
    ensures q in Bindings(entries[i := e]) <==> q in Bindings(entries)
    ensures q in Bindings(entries) ==> Bindings(entries[i := e])[q] == Bindings(entries)[q]
  {
    var new' := entries[i := e];
    if j: nat :| j < |entries| && entries[j].vpn2 == q / 2 {
      PageMapped(entries, j, q);
      PageMapped(new', j, q);
    } else {
      PageNotMapped(entries, q);
      PageNotMapped(new', q);
    }
  }

  /** A new entry with one valid half adds one binding. */
  lemma EntryAdded(entries: seq<Entry>, e: Entry, page: nat)
    requires Distinct(entries) && (forall i :: 0 <= i < |entries| ==> entries[i].vpn2 != e.vpn2)
    requires e.vpn2 == page / 2 && HalfValid(e, page % 2 == 1) && !HalfValid(e, page % 2 != 1)
    ensures Distinct(entries + [e])
    ensures Bindings(entries + [e]) == Bindings(entries)[page := Half(e, page % 2 == 1)]
  {
    var n := entries + [e];
    assert n[..|entries|] == entries;
    forall q: nat ensures q in EntryMap(e) <==> q == page {
      HalfKeys(e, q);
    }
    HalfKeys(e, page);
    assert EntryMap(e) == map[page := Half(e, page % 2 == 1)];
  }

  /** Every entry maps at least one page of its own. */
  lemma {:induction false} EntriesAtMostPages(entries: seq<Entry>)
    requires Distinct(entries)
    ensures |entries| <= |Bindings(entries)|
  {
    if entries != [] {
      var rest, last := entries[..|entries| - 1], entries[|entries| - 1];
      EntriesAtMostPages(rest);
      var page := HalfPage(last, last.v0 == 0);
      HalfKeys(last, page);
      PageNotMapped(rest, page);
      assert Bindings(rest).Keys + {page} <= Bindings(entries).Keys;
      SubsetIsSmaller(Bindings(rest).Keys + {page}, Bindings(entries).Keys);
    }
  }

  class PageTable {
    const entries: array<Entry>
    const asid: nat
    var validCount: nat

    /** Each pair has one entry, and each entry is good for this address space only. */
    ghost predicate Valid()
      reads this, entries
    {
      && validCount <= entries.Length && Distinct(entries[..validCount])
      && forall i :: 0 <= i < validCount ==> entries[i].asid == asid
    }

    ghost function Pages(): map<nat, Mapping>
      requires validCount <= entries.Length
      reads this, entries
    {
      Bindings(entries[..validCount])
    }

    /** vm_create_pagetable; what the entries hold at first does not matter. */
    constructor (size: nat, id: nat)
      ensures Valid() && Pages() == map[] && entries.Length == size && validCount == 0 && fresh(entries)
    {
      entries := new Entry[size](i => Entry(0, 0, 0, 0, 0, 0, 0, 0));
      asid := id;
      validCount := 0;
    }

    /** The search of vm_map and vm_set_dirty for the entry of a pair. */
    method FindPair(vpn2: nat) returns (i: nat)
      requires Valid()
      ensures i <= validCount
      ensures i < validCount ==> entries[i].vpn2 == vpn2
      ensures forall k :: 0 <= k < i ==> entries[k].vpn2 != vpn2
    {
      i := 0;
      while i < validCount && entries[i].vpn2 != vpn2
        invariant 0 <= i <= validCount
        invariant forall k :: 0 <= k < i ==> entries[k].vpn2 != vpn2
      {
        i := i + 1;
      }
    }

    /** vm_map: panics exactly if the page is mapped already or needs an entry that the full
        table has not got; otherwise it adds exactly one binding. */
    method Map(physaddr: nat, vaddr: nat, dirty: nat) returns (r: Result)
      requires Valid() && (dirty == 0 || dirty == 1)
      modifies this`validCount, entries
      ensures Valid()
      ensures r == Panic <==>
                || PageOf(vaddr) in old(Pages())
                || (old(validCount) == entries.Length
                    && forall i :: 0 <= i < old(validCount) ==> old(entries[i]).vpn2 != PairOf(vaddr))
      ensures Pages() == if r == Panic then old(Pages())
                         else old(Pages())[PageOf(vaddr) := Mapping(physaddr / 4096, dirty == 1)]
    {
      hide Bindings, EntryMap, Distinct;
      PageIs(vaddr);
      ghost var page, es := PageOf(vaddr), entries[..validCount];
      var i := FindPair(PairOf(vaddr));
      if i < validCount {
        PageMapped(es, i, page);
        if IsEven(vaddr) {
          if entries[i].v0 != 0 {
            return Panic;
          }
          entries[i] := entries[i].(pfn0 := physaddr / 4096, v0 := 1, d0 := dirty);
        } else {
          if entries[i].v1 != 0 {
            return Panic;
          }
          entries[i] := entries[i].(pfn1 := physaddr / 4096, v1 := 1, d1 := dirty);
        }
        HalfWritten(es, i, entries[i], page);
        assert entries[..validCount] == es[i := entries[i]];
        return Done;
      }
      PageNotMapped(es, page);
      if validCount >= entries.Length {
        return Panic;
      }
      entries[validCount] := entries[validCount].(vpn2 := PairOf(vaddr), asid := asid);
      if IsEven(vaddr) {
        entries[validCount] := entries[validCount].(pfn0 := physaddr / 4096, d0 := dirty, v0 := 1, v1 := 0);
      } else {
        entries[validCount] := entries[validCount].(pfn1 := physaddr / 4096, d1 := dirty, v1 := 1, v0 := 0);
      }
      EntryAdded(es, entries[validCount], page);
      validCount := validCount + 1;
      assert entries[..validCount] == es + [entries[validCount - 1]];
      return Done;
    }

    /** vm_set_dirty: panics exactly if the page is not mapped; otherwise it changes the write
        permission of that page and nothing else. */
    method SetDirty(vaddr: nat, dirty: nat) returns (r: Result)
      requires Valid() && (dirty == 0 || dirty == 1)
      modifies entries
      ensures Valid()
      ensures r == Panic <==> PageOf(vaddr) !in old(Pages())
      ensures Pages() == if r == Panic then old(Pages())
                         else old(Pages())[PageOf(vaddr) := old(Pages())[PageOf(vaddr)].(writable := dirty == 1)]
    {
      hide Bindings, EntryMap, Distinct;
      PageIs(vaddr);
      ghost var page, es := PageOf(vaddr), entries[..validCount];
      var i := FindPair(PairOf(vaddr));
      if i == validCount {
        PageNotMapped(es, page);
        return Panic;
      }
      PageMapped(es, i, page);
      if IsEven(vaddr) {
        if entries[i].v0 == 0 {
          return Panic;
        }
        entries[i] := entries[i].(d0 := dirty);
      } else {
        if entries[i].v1 == 0 {
          return Panic;
        }
        entries[i] := entries[i].(d1 := dirty);
      }
      HalfWritten(es, i, entries[i], page);
      assert entries[..validCount] == es[i := entries[i]];
      return Done;
    }

    /** tlb_fill's assertion. */
    lemma FitsIfPagesDo(slots: nat)
      requires Valid() && |Pages()| <= slots
      ensures validCount <= slots
    {
      EntriesAtMostPages(entries[..validCount]);
    }

    /** One turn of a mapping loop of process_start. */
    method MapOne(frame: nat, vaddr: nat) returns (r: Result)
      requires Valid()
      modifies this`validCount, entries
      ensures Valid()
      ensures r == Panic ==> Pages() == old(Pages())
      ensures r == Done ==>
                && frame != 0 && PageOf(vaddr) !in old(Pages())
                && Pages() == old(Pages())[PageOf(vaddr) := Mapping(PageOf(frame), true)]
      ensures |old(Pages())| < entries.Length ==> (r == Done <==> frame != 0 && PageOf(vaddr) !in old(Pages()))
    {
      hide Bindings, Distinct, PairOf;
      if frame == 0 {
        return Panic;
      }
      EntriesAtMostPages(entries[..validCount]);
      r := Map(frame, vaddr, 1);
    }

    /** A mapping loop of process_start: pages from vaddr on, upwards for a segment and
        downwards for the stack, with the frames the page pool gave (0 if it had none). */
    method MapPages(frames: seq<nat>, vaddr: nat, upwards: bool) returns (r: Result)
      requires Valid() && vaddr % 4096 == 0 && (!upwards ==> vaddr >= |frames| * 4096)
      modifies this`validCount, entries
      ensures Valid()
      ensures r == Done ==> Mapped(old(Pages()), Pages(), frames, vaddr, upwards)
      ensures |old(Pages())| + |frames| <= entries.Length ==>
                (r == Done <==> CanMap(old(Pages()), frames, vaddr, upwards))
    {
      hide Bindings, Distinct, PageOf, Mapped, CanMap, NthPage;
      ghost var before := Pages();
      var i := 0;
      MappedNone(before, frames[..0], vaddr, upwards);
      while i < |frames|
        invariant 0 <= i <= |frames| && Valid() && Mapped(before, Pages(), frames[..i], vaddr, upwards)
        invariant CanMap(before, frames[..i], vaddr, upwards)
      {
        var address := if upwards then vaddr + i * 4096 else vaddr - i * 4096;
        ghost var mapped := Pages();
        PageStep(vaddr, i, upwards);
        assert frames[..i + 1] == frames[..i] + [frames[i]];
        CanMapStep(before, mapped, frames[..i], frames[i], vaddr, upwards);
        MappedSize(before, mapped, frames[..i], vaddr, upwards);
        r := MapOne(frames[i], address);
        if r == Panic {
          CanMapFirst(before, frames, i + 1, vaddr, upwards);
          return Panic;
        }
        MappedStep(before, mapped, Pages(), frames[..i], frames[i], vaddr, upwards);
        i := i + 1;
      }
      assert frames[..i] == frames;
      return Done;
    }

    /** The part of process_start that maps the process: the budget check, the stack, and the
        two segments; the assertions are those of tlb_fill, and they cannot fail. */
    method MapProcess(tlbSlots: nat, stackTop: nat, roVaddr: nat, rwVaddr: nat,
                      stackFrames: seq<nat>, roFrames: seq<nat>, rwFrames: seq<nat>) returns (r: Result)
      requires Valid() && validCount == 0 && tlbSlots <= entries.Length
      requires stackTop % 4096 == 0 && roVaddr % 4096 == 0 && rwVaddr % 4096 == 0 && stackTop >= |stackFrames| * 4096
      modifies this`validCount, entries
      ensures Valid()
      ensures r == Done <==>
                && |stackFrames| + |roFrames| + |rwFrames| <= tlbSlots
                && 0 !in stackFrames && 0 !in roFrames && 0 !in rwFrames
                && (forall p :: !(InRange(p, stackTop, |stackFrames|, false) && InRange(p, roVaddr, |roFrames|, true)))
                && (forall p :: !(InRange(p, stackTop, |stackFrames|, false) && InRange(p, rwVaddr, |rwFrames|, true)))
                && (forall p :: !(InRange(p, roVaddr, |roFrames|, true) && InRange(p, rwVaddr, |rwFrames|, true)))
      ensures r == Done ==>
                && validCount <= tlbSlots
                && (forall p :: p in Pages() <==>
                      || InRange(p, stackTop, |stackFrames|, false)
                      || InRange(p, roVaddr, |roFrames|, true) || InRange(p, rwVaddr, |rwFrames|, true))
                && (forall p :: InRange(p, stackTop, |stackFrames|, false) ==>
                      Pages()[p] == Mapping(PageOf(stackFrames[Index(p, stackTop, false)]), true))
                && (forall p :: InRange(p, roVaddr, |roFrames|, true) ==>
                      Pages()[p] == Mapping(PageOf(roFrames[Index(p, roVaddr, true)]), false))
                && (forall p :: InRange(p, rwVaddr, |rwFrames|, true) ==>
                      Pages()[p] == Mapping(PageOf(rwFrames[Index(p, rwVaddr, true)]), true))
    {
      hide Bindings, Distinct, PageOf, InRange, Index;
      if |roFrames| + |rwFrames| + |stackFrames| > tlbSlots {
        return Panic;
      }
      NoEntriesNoPages();
      ghost var m0 := Pages();
      r := MapPages(stackFrames, stackTop, false);
      if r == Panic {
        return Panic;
      }
      ghost var m1 := Pages();
      MappedSize(m0, m1, stackFrames, stackTop, false);
      FitsIfPagesDo(tlbSlots);
      assert validCount <= tlbSlots;
      r := MapPages(roFrames, roVaddr, true);
      if r == Panic {
        return Panic;
      }
      ghost var m2 := Pages();
      MappedSize(m1, m2, roFrames, roVaddr, true);
      r := MapPages(rwFrames, rwVaddr, true);
      if r == Panic {
        return Panic;
      }
      ghost var m3 := Pages();
      MappedSize(m2, m3, rwFrames, rwVaddr, true);
      r := Protect(roVaddr, |roFrames|);
      FitsIfPagesDo(tlbSlots);
      assert validCount <= tlbSlots;
    }

    lemma NoEntriesNoPages()
      requires validCount == 0
      ensures Pages() == map[]
    {
    }

    /** The loop of process_start that takes the write permission off the read-only pages. */
    method Protect(vaddr: nat, count: nat) returns (r: Result)
      requires Valid() && vaddr % 4096 == 0 && forall p :: InRange(p, vaddr, count, true) ==> p in Pages()
      modifies entries
      ensures Valid() && r == Done && Pages().Keys == old(Pages()).Keys && |Pages()| == |old(Pages())|
      ensures forall p :: p in Pages() ==>
                Pages()[p] == if InRange(p, vaddr, count, true) then old(Pages())[p].(writable := false) else old(Pages())[p]
    {
      hide Bindings, Distinct;
      var i := 0;
      while i < count
        invariant 0 <= i <= count && Valid() && Pages().Keys == old(Pages()).Keys
        invariant forall p :: p in Pages() ==>
                    Pages()[p] == if InRange(p, vaddr, i, true) then old(Pages())[p].(writable := false) else old(Pages())[p]
      {
        PageStep(vaddr, i, true);
        assert InRange(PageOf(vaddr + i * 4096), vaddr, count, true);
        r := SetDirty(vaddr + i * 4096, 0);
        i := i + 1;
      }
      SameSize(old(Pages()), Pages());
      return Done;
    }
  }

  lemma SameSize(m: map<nat, Mapping>, n: map<nat, Mapping>)
    requires m.Keys == n.Keys
    ensures |m| == |n|
  {
    assert |m| == |m.Keys| && |n| == |n.Keys|;
  }

  /** The i-th page from vaddr on, upwards or downwards. */
  function NthPage(vaddr: nat, i: nat, upwards: bool): int {
    if upwards then PageOf(vaddr) + i else PageOf(vaddr) - i
  }

  /** How many pages before p a walk from vaddr on comes past. */
  function Index(p: int, vaddr: nat, upwards: bool): int {
    if upwards then p - PageOf(vaddr) else PageOf(vaddr) - p
  }

  predicate InRange(p: int, vaddr: nat, count: nat, upwards: bool) {
    0 <= Index(p, vaddr, upwards) < count
  }

  lemma PageStep(vaddr: nat, i: nat, upwards: bool)
    requires vaddr % 4096 == 0 && (!upwards ==> vaddr >= i * 4096)
    ensures var address := if upwards then vaddr + i * 4096 else vaddr - i * 4096;
            PageOf(address) == NthPage(vaddr, i, upwards)
  {
  }

  /** n is m with the pages from vaddr on mapped to the frames, writable. */
  ghost predicate Mapped(m: map<nat, Mapping>, n: map<nat, Mapping>, frames: seq<nat>, vaddr: nat, upwards: bool) {
    && |n| == |m| + |frames|
    && (forall p :: p in n <==> p in m || InRange(p, vaddr, |frames|, upwards))
    && (forall p :: p in m && !InRange(p, vaddr, |frames|, upwards) ==> n[p] == m[p])
    && (forall p :: InRange(p, vaddr, |frames|, upwards) ==> n[p] == Mapping(PageOf(frames[Index(p, vaddr, upwards)]), true))
  }

  /** The same for one page. */
  ghost predicate MappedAt(m: map<nat, Mapping>, n: map<nat, Mapping>, frames: seq<nat>, vaddr: nat, upwards: bool, p: int) {
    && (p in n <==> p in m || InRange(p, vaddr, |frames|, upwards))
    && if InRange(p, vaddr, |frames|, upwards)
       then n[p] == Mapping(PageOf(frames[Index(p, vaddr, upwards)]), true)
       else p in m ==> n[p] == m[p]
  }

  /** There are frames for all of the pages, and none of the pages is mapped yet. */
  ghost predicate CanMap(m: map<nat, Mapping>, frames: seq<nat>, vaddr: nat, upwards: bool) {
    0 !in frames && forall p :: p in m ==> !InRange(p, vaddr, |frames|, upwards)
  }

  lemma MappedNone(m: map<nat, Mapping>, frames: seq<nat>, vaddr: nat, upwards: bool)
    requires frames == []
    ensures Mapped(m, m, frames, vaddr, upwards) && CanMap(m, frames, vaddr, upwards)
  {
  }

  lemma MappedSize(m: map<nat, Mapping>, n: map<nat, Mapping>, frames: seq<nat>, vaddr: nat, upwards: bool)
    requires Mapped(m, n, frames, vaddr, upwards)
    ensures |n| == |m| + |frames|
  {
  }

  lemma MappedStep(m: map<nat, Mapping>, n: map<nat, Mapping>, n': map<nat, Mapping>, frames: seq<nat>, frame: nat,
                   vaddr: nat, upwards: bool)
    requires Mapped(m, n, frames, vaddr, upwards)
    requires NthPage(vaddr, |frames|, upwards) >= 0 && NthPage(vaddr, |frames|, upwards) !in n
    requires n' == n[NthPage(vaddr, |frames|, upwards) := Mapping(PageOf(frame), true)]
    ensures Mapped(m, n', frames + [frame], vaddr, upwards)
  {
    hide PageOf, NthPage, InRange, Index;
    var more := frames + [frame];
    forall p: int
      ensures p in n' <==> p in m || InRange(p, vaddr, |more|, upwards)
      ensures p in m && !InRange(p, vaddr, |more|, upwards) ==> n'[p] == m[p]
    {
      MappedAtStep(m, n, n', frames, frame, vaddr, upwards, p);
    }
    forall p: int | InRange(p, vaddr, |more|, upwards)
      ensures 0 <= Index(p, vaddr, upwards) < |more| && n'[p] == Mapping(PageOf(more[Index(p, vaddr, upwards)]), true)
    {
      MappedAtStep(m, n, n', frames, frame, vaddr, upwards, p);
    }
  }

  lemma MappedAtStep(m: map<nat, Mapping>, n: map<nat, Mapping>, n': map<nat, Mapping>, frames: seq<nat>, frame: nat,
                     vaddr: nat, upwards: bool, p: int)
    requires MappedAt(m, n, frames, vaddr, upwards, p)
    requires NthPage(vaddr, |frames|, upwards) >= 0 && NthPage(vaddr, |frames|, upwards) !in n
    requires n' == n[NthPage(vaddr, |frames|, upwards) := Mapping(PageOf(frame), true)]
    ensures MappedAt(m, n', frames + [frame], vaddr, upwards, p)
    ensures InRange(p, vaddr, |frames| + 1, upwards) ==> 0 <= Index(p, vaddr, upwards) < |frames| + 1
  {
    hide PageOf;
  }

  lemma RangeNext(vaddr: nat, count: nat, next: nat, upwards: bool)
    requires next == count + 1
    ensures forall p :: InRange(p, vaddr, next, upwards) <==>
              InRange(p, vaddr, count, upwards) || p == NthPage(vaddr, count, upwards)
    ensures !InRange(NthPage(vaddr, count, upwards), vaddr, count, upwards)
  {
    hide PageOf;
  }

  lemma CanMapStep(m: map<nat, Mapping>, n: map<nat, Mapping>, frames: seq<nat>, frame: nat, vaddr: nat, upwards: bool)
    requires Mapped(m, n, frames, vaddr, upwards) && CanMap(m, frames, vaddr, upwards)
    ensures CanMap(m, frames + [frame], vaddr, upwards) <==> frame != 0 && NthPage(vaddr, |frames|, upwards) !in n
  {
    hide PageOf, InRange, NthPage;
    RangeNext(vaddr, |frames|, |frames + [frame]|, upwards);
    assert frame in frames + [frame] && forall f :: f in frames + [frame] <==> f in frames || f == frame;
  }

  lemma CanMapFirst(m: map<nat, Mapping>, frames: seq<nat>, i: nat, vaddr: nat, upwards: bool)
    requires i <= |frames|
    ensures CanMap(m, frames, vaddr, upwards) ==> CanMap(m, frames[..i], vaddr, upwards)
  {
  }
}

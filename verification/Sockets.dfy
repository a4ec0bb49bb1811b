/** The table of open sockets and the choice of ports. */
module Sockets {
  import opened Collections

  const PROTOCOL_POP: nat := 1
  const PROTOCOL_SOP: nat := 2
  const MAX_PORT: nat := 65535

  /** protocol is 0 in a free slot; signal says that the slot has its semaphore. */
  datatype Socket = Socket(port: nat, protocol: nat, signal: bool)

  predicate Open(s: Socket) {
    s.protocol != 0
  }

  predicate PortUsed(table: seq<Socket>, port: nat) {
    exists i :: 0 <= i < |table| && Open(table[i]) && table[i].port == port
  }

  function FreeSlot(table: seq<Socket>): (i: nat)
    ensures i <= |table|
    ensures i < |table| ==> !Open(table[i])
    ensures forall k :: 0 <= k < i ==> Open(table[k])
  {
    if table == [] || !Open(table[0]) then 0 else 1 + FreeSlot(table[1..])
  }

  /** Open sockets have distinct nonzero ports. */
  ghost predicate TableOk(table: seq<Socket>) {
    && (forall i :: 0 <= i < |table| ==> (Open(table[i]) <==> table[i].signal))
    && (forall i :: 0 <= i < |table| && Open(table[i]) ==> 0 < table[i].port <= MAX_PORT)
    && (forall i, j :: 0 <= i < j < |table| && Open(table[i]) && Open(table[j]) ==> table[i].port != table[j].port)
  }

  ghost function Ports(table: seq<Socket>): set<nat> {
    if table == [] then {} else (if Open(table[0]) then {table[0].port} else {}) + Ports(table[1..])
  }

  lemma {:induction false} PortsAre(table: seq<Socket>)
    ensures forall p :: p in Ports(table) <==> PortUsed(table, p)
    ensures |Ports(table)| <= |table|
    ensures FreeSlot(table) < |table| ==> |Ports(table)| < |table|
  {
    if table != [] {
      PortsAre(table[1..]);
      forall p ensures p in Ports(table) <==> PortUsed(table, p) {
        if PortUsed(table, p) {
          var i :| 0 <= i < |table| && Open(table[i]) && table[i].port == p;
          assert i > 0 ==> table[1..][i - 1] == table[i];
        }
        if p in Ports(table[1..]) {
          var i :| 0 <= i < |table[1..]| && Open(table[1..][i]) && table[1..][i].port == p;
          assert table[i + 1].port == p;
        }
      }
    }
  }

  function UpTo(n: nat): (s: set<nat>)
    ensures forall k :: k in s <==> 1 <= k <= n
    ensures |s| == n
  {
    if n == 0 then {} else UpTo(n - 1) + {n}
  }

  /** With a slot free, not all of the ports up to the table's size can be taken. */
  lemma Pigeonhole(table: seq<Socket>, n: nat)
    requires FreeSlot(table) < |table| && forall p :: 1 <= p <= n ==> PortUsed(table, p)
    ensures n < |table|
  {
    PortsAre(table);
    assert UpTo(n) <= Ports(table);
    SubsetIsSmaller(UpTo(n), Ports(table));
  }

  class SocketTable {
    const sockets: array<Socket>

    ghost predicate Valid()
      reads this, sockets
    {
      TableOk(sockets[..]) && sockets.Length < MAX_PORT
    }

    /** socket_init. */
    constructor (size: nat)
      requires size < MAX_PORT
      ensures Valid() && fresh(sockets) && sockets[..] == seq(size, i => Socket(0, 0, false))
    {
      sockets := new Socket[size](i => Socket(0, 0, false));
    }

    method FindPort(port: nat) returns (used: bool)
      ensures used == PortUsed(sockets[..], port)
    {
      var i := 0;
      while i < sockets.Length
        invariant 0 <= i <= sockets.Length
        invariant forall k :: 0 <= k < i ==> !(Open(sockets[k]) && sockets[k].port == port)
      {
        if sockets[i].protocol != 0 && sockets[i].port == port {
          assert Open(sockets[..][i]);
          return true;
        }
        i := i + 1;
      }
      return false;
    }

    /** The automatic choice: the smallest port nobody uses, at most the table's size. */
    method FirstFreePort() returns (port: nat)
      requires Valid() && FreeSlot(sockets[..]) < sockets.Length
      ensures 1 <= port <= sockets.Length && !PortUsed(sockets[..], port)
      ensures forall p :: 1 <= p < port ==> PortUsed(sockets[..], p)
    {
      port := 0;
      var notFree := true;
      while notFree
        invariant forall p :: 1 <= p < port ==> PortUsed(sockets[..], p)
        invariant if notFree then port > 0 ==> PortUsed(sockets[..], port)
                  else 1 <= port && !PortUsed(sockets[..], port)
        invariant port <= sockets.Length
        decreases sockets.Length - port, notFree
      {
        assert forall p :: 1 <= p <= port ==> PortUsed(sockets[..], p);
        Pigeonhole(sockets[..], port);
        port := port + 1;
        notFree := FindPort(port);
      }
      assert port != 0;
    }

    /** socket_open; semaphoreFree says whether a semaphore is to be had. */
    method OpenSocket(protocol: nat, port0: nat, semaphoreFree: bool) returns (s: int)
      requires Valid() && port0 <= MAX_PORT
      modifies sockets
      ensures Valid()
      ensures s < 0 <==>
                || (protocol != PROTOCOL_POP && protocol != PROTOCOL_SOP)
                || FreeSlot(old(sockets[..])) == sockets.Length
                || (port0 != 0 && PortUsed(old(sockets[..]), port0))
                || !semaphoreFree
      ensures s < 0 ==> s == -1 && sockets[..] == old(sockets[..])
      ensures s >= 0 ==>
                && s == FreeSlot(old(sockets[..])) < sockets.Length
                && sockets[..] == old(sockets[..])[s := Socket(sockets[s].port, protocol, true)]
                && !PortUsed(old(sockets[..]), sockets[s].port)
                && (port0 != 0 ==> sockets[s].port == port0)
                && (port0 == 0 ==>
                      && 1 <= sockets[s].port <= sockets.Length
                      && forall p :: 1 <= p < sockets[s].port ==> PortUsed(old(sockets[..]), p))
    {
      if protocol != PROTOCOL_POP && protocol != PROTOCOL_SOP {
        return -1;
      }
      ghost var table := sockets[..];
      var i := 0;
      while i < sockets.Length && sockets[i].protocol != 0
        invariant 0 <= i <= sockets.Length
        invariant forall k :: 0 <= k < i ==> Open(sockets[k])
      {
        i := i + 1;
      }
      SlotIs(table, i);
      if i == sockets.Length {
        return -1;
      }
      var port := port0;
      if port == 0 {
        port := FirstFreePort();
      } else {
        var used := FindPort(port);
        if used {
          return -1;
        }
      }
      if !semaphoreFree {
        return -1;
      }
      sockets[i] := Socket(port, protocol, true);
      assert sockets[..] == table[i := Socket(port, protocol, true)];
      StillDistinct(table, i, port, protocol);
      return i;
    }

    /** socket_close. */
    method CloseSocket(s: nat)
      requires Valid() && s < sockets.Length
      modifies sockets
      ensures Valid()
      ensures sockets[..] == if Open(old(sockets[s])) then old(sockets[..])[s := Socket(0, 0, false)] else old(sockets[..])
    {
      if sockets[s].signal {
        sockets[s] := Socket(0, 0, false);
      }
    }
  }

  lemma SlotIs(table: seq<Socket>, i: nat)
    requires i <= |table| && (i < |table| ==> !Open(table[i]))
    requires forall k :: 0 <= k < i ==> Open(table[k])
    ensures FreeSlot(table) == i
  {
    assert i < |table| ==> !Open(table[i]);
  }

  lemma StillDistinct(table: seq<Socket>, i: nat, port: nat, protocol: nat)
    requires TableOk(table) && i < |table| && 0 < port <= MAX_PORT && protocol != 0 && !PortUsed(table, port)
    ensures TableOk(table[i := Socket(port, protocol, true)])
  {
  }
}

/** The table of device managers and the 8-bit identifiers it hands out
    (src/zmq/ZMQDeviceManagerTable.cpp, src/model/DeviceManagerID.cpp). */
module DeviceManagerTable {
  import opened Basics

  const UINT8_MAX := 255

  type Byte = n: int | 0 <= n < 256

  /** What is left of a number in 8 bits. */
  function Wrap(n: nat): Byte { n % 256 }

  /** A 16-bit identifier: the raw prefix in the high byte, the ident in the low one. */
  datatype DeviceManagerID = DeviceManagerID(value: nat)
  {
    function Ident(): Byte { value % 256 }

    function Prefix(): nat { value / 256 }
  }

  function Pack(prefix: Byte, ident: Byte): (id: DeviceManagerID)
    ensures id.value < 0x1_0000 && id.Prefix() == prefix && id.Ident() == ident
  {
    DeviceManagerID(prefix * 256 + ident)
  }

  function Idents(table: seq<DeviceManagerID>): (idents: seq<Byte>)
    ensures |idents| == |table| && forall k | 0 <= k < |table| :: idents[k] == table[k].Ident()
  {
    seq(|table|, k requires 0 <= k < |table| => table[k].Ident())
  }

  /** getFirstEmptyID from the k-th entry on: an 8-bit counter goes up, wrapping, as long as the entries agree. */
  function Walk(idents: seq<Byte>, counter: Byte): Byte
    decreases |idents|
  {
    if idents != [] && idents[0] == counter then Walk(idents[1..], Wrap(counter + 1)) else counter
  }

  function FirstEmpty(idents: seq<Byte>): Byte {
    if idents == [] then 0 else Walk(idents, idents[0])
  }

  class ZMQDeviceManagerTable {
    var managers: seq<DeviceManagerID>

    constructor ()
      ensures managers == []
    {
      managers := [];
    }

    method GetFirstEmptyID() returns (ident: Byte)
      ensures ident == FirstEmpty(Idents(managers))
    {
      if managers == [] { return 0; }
      ident := managers[0].Ident();
      var i := 0;
      ghost var idents := Idents(managers);
      while i < |managers| && managers[i].Ident() == ident
        invariant i <= |managers| && Walk(idents[i..], ident) == FirstEmpty(idents)
      {
        assert idents[i..][1..] == idents[i + 1..];
        ident := Wrap(ident + 1);
        i := i + 1;
      }
    }

    /** registerDaemonPrefix; no more than 256 managers are registered at a time. */
    method RegisterDaemonPrefix(prefix: Byte) returns (id: Option<DeviceManagerID>)
      modifies this
      ensures id == Registered(old(managers), prefix)
      ensures managers == if id.Some? then old(managers) + [id.value] else old(managers)
    {
      if |managers| > UINT8_MAX { return None; }
      var ident := GetFirstEmptyID();
      id := Some(Pack(prefix, ident));
      managers := managers + [id.value];
    }

    /** unregisterDaemon: removes the first entry that equals the identifier; an unknown one is refused. */
    method UnregisterDaemon(id: DeviceManagerID) returns (ok: bool)
      modifies this
      ensures ok <==> id in old(managers)
      ensures !ok ==> managers == old(managers)
      ensures ok ==> exists k | 0 <= k < |old(managers)| ::
        old(managers)[k] == id && id !in old(managers)[..k] && managers == Cut(old(managers), k)
    {
      var k := 0;
      while k < |managers| && managers[k] != id
        invariant k <= |managers| && id !in managers[..k]
      {
        k := k + 1;
      }
      if k == |managers| { return false; }
      managers := Cut(managers, k);
      ok := true;
    }

    method GetAll(prefix: nat) returns (all: seq<DeviceManagerID>)
      ensures all == OfPrefix(managers, prefix)
    {
      all := [];
      for i := 0 to |managers|
        invariant all == OfPrefix(managers[..i], prefix)
      {
        assert managers[..i + 1][..i] == managers[..i];
        if managers[i].Prefix() == prefix { all := all + [managers[i]]; }
      }
      assert managers[..|managers|] == managers;
    }
  }

  /** The identifiers of one prefix. */
  function OfPrefix(table: seq<DeviceManagerID>, prefix: nat): seq<DeviceManagerID> {
    if table == [] then []
    else
      var last := |table| - 1;
      OfPrefix(table[..last], prefix) + if table[last].Prefix() == prefix then [table[last]] else []
  }

  /** Each is listed as often as the table has it, and no other. */
  lemma {:induction false} OfPrefixCounts(table: seq<DeviceManagerID>, prefix: nat, id: DeviceManagerID)
    ensures multiset(OfPrefix(table, prefix))[id] == if id.Prefix() == prefix then multiset(table)[id] else 0
    decreases |table|
  {
    if table != [] {
      var front, end := table[..|table| - 1], table[|table| - 1];
      assert table == front + [end];
      OfPrefixCounts(front, prefix, id);
    }
  }

  /** They are listed in the order of the table: those of a first part before those of the rest. */
  lemma {:induction false} OfPrefixInOrder(table: seq<DeviceManagerID>, more: seq<DeviceManagerID>, prefix: nat)
    ensures OfPrefix(table + more, prefix) == OfPrefix(table, prefix) + OfPrefix(more, prefix)
    decreases |more|
  {
    if more == [] {
      assert table + more == table;
    } else {
      var front := more[..|more| - 1];
      assert (table + more)[..|table + more| - 1] == table + front;
      OfPrefixInOrder(table, front, prefix);
    }
  }

  function Registered(table: seq<DeviceManagerID>, prefix: Byte): Option<DeviceManagerID> {
    if |table| > UINT8_MAX then None else Some(Pack(prefix, FirstEmpty(Idents(table))))
  }

  // ----- contiguous runs of idents

  /** The idents are consecutive, modulo 256, and there are at most 256. */
  ghost predicate Ring(idents: seq<Byte>) {
    && |idents| <= 256
    && forall k | 0 <= k < |idents| :: idents[k] == Wrap(idents[0] + k)
  }

  lemma WrapDistinct(base: nat, j: nat, k: nat)
    requires j < k < j + 256
    ensures Wrap(base + j) != Wrap(base + k)
  {
  }

  lemma WrapNext(base: nat)
    ensures Wrap(Wrap(base) + 1) == Wrap(base + 1)
  {
  }

  lemma RingDistinct(idents: seq<Byte>)
    requires Ring(idents)
    ensures forall j, k | 0 <= j < k < |idents| :: idents[j] != idents[k]
  {
    forall j, k | 0 <= j < k < |idents|
      ensures idents[j] != idents[k]
    {
      WrapDistinct(idents[0], j, k);
    }
  }

  /** Along consecutive idents the counter runs to the first entry that does not follow. */
  lemma {:induction false} WalkTo(idents: seq<Byte>, base: nat, n: nat)
    requires n <= |idents| && forall k | 0 <= k < n :: idents[k] == Wrap(base + k)
    requires n < |idents| ==> idents[n] != Wrap(base + n)
    ensures Walk(idents, Wrap(base)) == Wrap(base + n)
    decreases n
  {
    if n > 0 {
      assert idents[0] == Wrap(base + 0);
      WrapNext(base);
      forall k | 0 <= k < n - 1
        ensures idents[1..][k] == Wrap(base + 1 + k)
      {
        assert idents[1..][k] == idents[k + 1] == Wrap(base + (k + 1));
      }
      WalkTo(idents[1..], base + 1, n - 1);
    }
  }

  lemma RingExtends(idents: seq<Byte>, next: Byte)
    requires Ring(idents) && |idents| < 256
    requires next == if idents == [] then 0 else Wrap(idents[0] + |idents|)
    ensures Ring(idents + [next])
  {
  }

  lemma NextIdent(idents: seq<Byte>)
    requires Ring(idents) && |idents| < 256
    ensures FirstEmpty(idents) == if idents == [] then 0 else Wrap(idents[0] + |idents|)
  {
    if idents != [] {
      assert idents[0] == Wrap(idents[0]);
      WalkTo(idents, idents[0], |idents|);
    }
  }

  lemma LastIsFresh(idents: seq<Byte>, next: Byte)
    requires Ring(idents + [next])
    ensures next !in idents
  {
    var all := idents + [next];
    RingDistinct(all);
    assert all[|idents|] == next && forall k | 0 <= k < |idents| :: idents[k] == all[k];
  }

  /** A registration on top of a contiguous run continues it, with an ident that nobody has. */
  lemma RegisterContinuesRing(table: seq<DeviceManagerID>, prefix: Byte)
    requires Ring(Idents(table)) && |table| <= UINT8_MAX
    ensures var id := Registered(table, prefix).value;
      && id.Ident() !in Idents(table)
      && Ring(Idents(table + [id]))
      && id.Ident() == if table == [] then 0 else Wrap(Idents(table)[0] + |table|)
  {
    var idents := Idents(table);
    var id := Registered(table, prefix).value;
    NextIdent(idents);
    RingExtends(idents, id.Ident());
    LastIsFresh(idents, id.Ident());
    assert Idents(table + [id]) == idents + [id.Ident()];
  }

  lemma WithoutFirst(idents: seq<Byte>)
    requires Ring(idents) && idents != []
    ensures Ring(idents[1..])
  {
    var base: nat := idents[0];
    forall k | 0 <= k < |idents| - 1
      ensures idents[1..][k] == Wrap(idents[1] + k)
    {
      assert idents[k + 1] == Wrap(base + (k + 1));
      assert idents[1] == Wrap(base + 1);
    }
  }

  /** Where an inner entry is missing the run breaks: the one after it is not the next ident. */
  lemma WithoutInner(idents: seq<Byte>, k: nat)
    requires Ring(idents) && 0 < k < |idents| - 1
    ensures Cut<Byte>(idents, k)[0] == idents[0] && Cut<Byte>(idents, k)[k] != Wrap(idents[0] + k)
    ensures !Ring(Cut<Byte>(idents, k))
  {
    assert Cut<Byte>(idents, k)[k] == idents[k + 1] == Wrap(idents[0] + (k + 1));
    WrapDistinct(idents[0], k, k + 1);
  }

  /** Removing an entry leaves a contiguous run if and only if it is the first or the last. */
  lemma RemoveKeepsRingIff(table: seq<DeviceManagerID>, k: nat)
    requires Ring(Idents(table)) && k < |table|
    ensures Ring(Idents(Cut(table, k))) <==> k == 0 || k == |table| - 1
  {
    var idents := Idents(table);
    assert Idents(Cut(table, k)) == Cut<Byte>(idents, k);
    if k == 0 {
      WithoutFirst(idents);
      assert Cut<Byte>(idents, k) == idents[1..];
    } else if k == |table| - 1 {
      assert Cut<Byte>(idents, k) == idents[..k];
    } else {
      WithoutInner(idents, k);
    }
  }

  ghost predicate Step(table: seq<DeviceManagerID>, table': seq<DeviceManagerID>) {
    || (exists prefix :: Registered(table, prefix).Some? && table' == table + [Registered(table, prefix).value])
    || (table != [] && (table' == Cut(table, 0) || table' == Cut(table, |table| - 1)))
  }

  ghost predicate Run(tables: seq<seq<DeviceManagerID>>) {
    && tables != [] && tables[0] == []
    && forall i | 0 <= i < |tables| - 1 :: Step(tables[i], tables[i + 1])
  }

  /** In every run that unregisters only first and last entries the identifiers are distinct, whatever
      their prefixes. */
  lemma {:induction false} RunKeepsDistinct(tables: seq<seq<DeviceManagerID>>, i: nat)
    requires Run(tables) && i < |tables|
    ensures Ring(Idents(tables[i]))
    ensures forall j, k | 0 <= j < k < |tables[i]| :: tables[i][j] != tables[i][k]
  {
    if i > 0 {
      var table := tables[i - 1];
      RunKeepsDistinct(tables, i - 1);
      if prefix :| Registered(table, prefix).Some? && tables[i] == table + [Registered(table, prefix).value] {
        RegisterContinuesRing(table, prefix);
      } else {
        RemoveKeepsRingIff(table, 0);
        RemoveKeepsRingIff(table, |table| - 1);
      }
    }
    RingDistinct(Idents(tables[i]));
  }

  /** Registering for one prefix after another, as far as the table takes them. */
  function RegisterAll(prefixes: seq<Byte>): seq<DeviceManagerID>
    decreases |prefixes|
  {
    if prefixes == [] then []
    else
      var table := RegisterAll(prefixes[..|prefixes| - 1]);
      match Registered(table, prefixes[|prefixes| - 1]) case None => table case Some(id) => table + [id]
  }

  /** The table that holds the idents 0, 1, 2, ... for the given prefixes in turn. */
  ghost predicate InTurn(table: seq<DeviceManagerID>, prefixes: seq<Byte>) {
    && |table| <= 256 && |table| <= |prefixes|
    && forall k | 0 <= k < |table| :: table[k] == Pack(prefixes[k], k)
  }

  lemma NextInTurn(table: seq<DeviceManagerID>, prefixes: seq<Byte>)
    requires InTurn(table, prefixes) && |table| < |prefixes|
    ensures if |table| == 256 then forall prefix :: Registered(table, prefix) == None
            else Registered(table, prefixes[|table|]) == Some(Pack(prefixes[|table|], |table|))
  {
    if 0 < |table| < 256 {
      var idents := Idents(table);
      forall k | 0 <= k < |idents|
        ensures idents[k] == Wrap(0 + k)
      {
        assert table[k] == Pack(prefixes[k], k);
      }
      WalkTo(idents, 0, |table|);
    }
  }

  /** Without unregistration the idents are 0, 1, 2, ... for the given prefixes in turn; the 257th
      registration and every later one is refused. */
  lemma {:induction false} RegisterOnly(prefixes: seq<Byte>)
    ensures InTurn(RegisterAll(prefixes), prefixes)
    ensures |RegisterAll(prefixes)| == if |prefixes| <= 256 then |prefixes| else 256
    decreases |prefixes|
  {
    if prefixes != [] {
      var front := prefixes[..|prefixes| - 1];
      RegisterOnly(front);
      assert InTurn(RegisterAll(front), prefixes);
      NextInTurn(RegisterAll(front), prefixes);
    }
  }

  /** After one entry of a contiguous run is unregistered, the next two registrations get different idents
      if and only if that entry was the first or the last. */
  lemma NextTwoDistinctIff(table: seq<DeviceManagerID>, k: nat, prefix: Byte)
    requires Ring(Idents(table)) && |table| <= UINT8_MAX && k < |table|
    ensures var rest := Cut(table, k);
      var first := Registered(rest, prefix).value;
      var second := Registered(rest + [first], prefix).value;
      && (first != second <==> k == 0 || k == |table| - 1)
      && (first == second ==> first.Ident() == table[k].Ident())
  {
    var rest := Cut(table, k);
    var first := Registered(rest, prefix).value;
    if k == 0 || k == |table| - 1 {
      RemoveKeepsRingIff(table, k);
      RegisterContinuesRing(rest, prefix);
      RegisterContinuesRing(rest + [first], prefix);
      assert first.Ident() == Idents(rest + [first])[|rest|];
    } else {
      GapIsFilled(table, k, rest);
      GapIsFilled(table, k, rest + [first]);
      assert rest + [first] == table[..k] + (table[k + 1..] + [first]);
    }
  }

  /** A run that lacks an inner entry offers the ident of that entry, whatever follows. */
  lemma GapIsFilled(table: seq<DeviceManagerID>, k: nat, gapped: seq<DeviceManagerID>)
    requires Ring(Idents(table)) && 0 < k < |table| - 1
    requires |gapped| > k && gapped[..k] == table[..k] && gapped[k] == table[k + 1]
    ensures FirstEmpty(Idents(gapped)) == table[k].Ident()
  {
    var idents, base := Idents(gapped), table[0].Ident();
    forall i | 0 <= i < k
      ensures idents[i] == Wrap(base + i)
    {
      assert gapped[i] == gapped[..k][i] == table[i] && Idents(table)[i] == Wrap(base + i);
    }
    assert idents[k] == Idents(table)[k + 1] == Wrap(base + (k + 1));
    WrapDistinct(base, k, k + 1);
    assert Wrap(base) == base && idents[0] == Wrap(base + 0);
    WalkTo(idents, base, k);
    assert Idents(table)[k] == Wrap(base + k);
  }
}

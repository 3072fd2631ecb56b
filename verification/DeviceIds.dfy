/** The device id allocator: 4096 ids searched in circular order, stored as a cursor and a bitmap. */
module DeviceIds {
  import opened Arithmetic
  import opened Bytes
  import opened Results

  const DEVICE_COUNT: nat := 4096
  const BYTE_COUNT: nat := 512

  /** Which ids are taken, and where the next search starts. */
  datatype IdState = IdState(states: seq<bool>, cursor: nat)

  predicate WellFormed(a: IdState) {
    |a.states| == DEVICE_COUNT && a.cursor < 0x1_0000_0000
  }

  function Fresh(): (a: IdState)
    ensures WellFormed(a) && a.cursor == 0 && forall i :: 0 <= i < DEVICE_COUNT ==> !a.states[i]
  {
    IdState(seq(DEVICE_COUNT, _ => false), 0)
  }

  // ----- allocation -----

  /** The id `steps` places after the cursor, going round. */
  function After(cursor: nat, steps: nat): (id: nat)
    ensures id < DEVICE_COUNT
  {
    (cursor + steps) % DEVICE_COUNT
  }

  /** Steps from the cursor to an id, going round. */
  function Distance(cursor: nat, id: nat): (d: nat)
    requires cursor < DEVICE_COUNT && id < DEVICE_COUNT
    ensures d < DEVICE_COUNT && After(cursor, d) == id
  {
    if id >= cursor then id - cursor else id + DEVICE_COUNT - cursor
  }

  function Search(states: seq<bool>, cursor: nat, steps: nat): (r: Option<nat>)
    requires |states| == DEVICE_COUNT && cursor < DEVICE_COUNT && steps <= DEVICE_COUNT
    ensures r.Some? ==> r.value < DEVICE_COUNT && !states[r.value]
    decreases DEVICE_COUNT - steps
  {
    if steps == DEVICE_COUNT then None
    else if !states[After(cursor, steps)] then Some(After(cursor, steps))
    else Search(states, cursor, steps + 1)
  }

  /** The state after one allocation and the id it returns, if any. */
  function Allocated(a: IdState): (IdState, Option<nat>)
    requires WellFormed(a)
  {
    if a.cursor >= DEVICE_COUNT then (a, None)
    else
      match Search(a.states, a.cursor, 0)
      case None => (a, None)
      case Some(id) => (IdState(a.states[id := true], (id + 1) % DEVICE_COUNT), Some(id))
  }

  function Released(a: IdState, id: nat): IdState
    requires WellFormed(a) && id < DEVICE_COUNT
  {
    a.(states := a.states[id := false])
  }

  /** All ids met before `id` when going round from the cursor are taken. */
  predicate TakenBefore(a: IdState, id: nat)
    requires WellFormed(a) && a.cursor < DEVICE_COUNT && id < DEVICE_COUNT
  {
    forall j :: 0 <= j < Distance(a.cursor, id) ==> a.states[After(a.cursor, j)]
  }

  lemma {:induction false} SearchFinds(states: seq<bool>, cursor: nat, steps: nat)
    requires |states| == DEVICE_COUNT && cursor < DEVICE_COUNT && steps <= DEVICE_COUNT
    requires forall j :: 0 <= j < steps ==> states[After(cursor, j)]
    ensures match Search(states, cursor, steps)
            case None => forall j :: 0 <= j < DEVICE_COUNT ==> states[After(cursor, j)]
            case Some(id) => id < DEVICE_COUNT && !states[id]
                             && forall j :: 0 <= j < Distance(cursor, id) ==> states[After(cursor, j)]
    decreases DEVICE_COUNT - steps
  {
    if steps < DEVICE_COUNT && states[After(cursor, steps)] {
      SearchFinds(states, cursor, steps + 1);
    }
  }

  /** Allocation returns id exactly when it is the first free id in circular order from the cursor, changes
      only that bit, and fails, leaving everything as it was, exactly when no id is free. */
  lemma AllocatesFirstFree(a: IdState)
    requires WellFormed(a) && a.cursor < DEVICE_COUNT
    ensures var (b, r) := Allocated(a);
            && WellFormed(b) && b.cursor < DEVICE_COUNT
            && (r == None <==> forall id :: 0 <= id < DEVICE_COUNT ==> a.states[id])
            && (r == None ==> b == a)
            && (forall id :: 0 <= id < DEVICE_COUNT ==> (r == Some(id) <==> !a.states[id] && TakenBefore(a, id)))
            && (r.Some? ==>
                  && r.value < DEVICE_COUNT
                  && b == IdState(a.states[r.value := true], (r.value + 1) % DEVICE_COUNT))
  {
    SearchFinds(a.states, a.cursor, 0);
    var r := Allocated(a).1;
    forall id | 0 <= id < DEVICE_COUNT
      ensures r == Some(id) <==> !a.states[id] && TakenBefore(a, id)
      ensures r == None ==> a.states[id]
    {
      assert After(a.cursor, Distance(a.cursor, id)) == id;
      if r.Some? && r.value != id && !a.states[id] {
        SearchFirst(a, r.value, id);
      }
    }
  }

  /** Of two free ids only the nearer one has nothing free before it. */
  lemma SearchFirst(a: IdState, first: nat, id: nat)
    requires WellFormed(a) && a.cursor < DEVICE_COUNT && first < DEVICE_COUNT && id < DEVICE_COUNT && first != id
    requires !a.states[first] && !a.states[id] && TakenBefore(a, first)
    ensures !TakenBefore(a, id)
  {
    assert After(a.cursor, Distance(a.cursor, id)) == id;
    assert Distance(a.cursor, first) < Distance(a.cursor, id);
    assert !a.states[After(a.cursor, Distance(a.cursor, first))];
  }

  /** A released id is handed out next exactly when everything from the cursor up to it is taken. */
  lemma ReissuedNext(a: IdState, id: nat)
    requires WellFormed(a) && a.cursor < DEVICE_COUNT && id < DEVICE_COUNT
    ensures Allocated(Released(a, id)).1 == Some(id) <==> TakenBefore(a, id)
  {
    hide After, Distance, Allocated;
    var b := Released(a, id);
    AllocatesFirstFree(b);
    forall j | 0 <= j < Distance(a.cursor, id)
      ensures a.states[After(a.cursor, j)] == b.states[After(a.cursor, j)]
    {
      NotYetThere(a.cursor, id, j);
    }
  }

  /** Id x is met before `id` when going round from the cursor. */
  predicate Between(cursor: nat, id: nat, x: nat) {
    if cursor <= id then cursor <= x < id else cursor <= x || x < id
  }

  lemma FoundBetween(a: IdState)
    requires WellFormed(a)
    ensures var (b, r) := Allocated(a);
            match r
            case Some(id) =>
              && a.cursor < DEVICE_COUNT && id < DEVICE_COUNT && !a.states[id]
              && (forall x :: 0 <= x < DEVICE_COUNT && Between(a.cursor, id, x) ==> a.states[x])
              && b.states == a.states[id := true] && b.cursor == if id == DEVICE_COUNT - 1 then 0 else id + 1
            case None => b == a && (a.cursor < DEVICE_COUNT ==> forall x :: 0 <= x < DEVICE_COUNT ==> a.states[x])
  {
    if a.cursor < DEVICE_COUNT {
      hide Allocated, TakenBefore, Between, Distance, After;
      FirstFound(a);
      var r := Allocated(a).1;
      if r.Some? {
        forall x | 0 <= x < DEVICE_COUNT && Between(a.cursor, r.value, x)
          ensures a.states[x]
        {
          NearerTaken(a, r.value, x);
        }
      }
    }
  }

  lemma FirstFound(a: IdState)
    requires WellFormed(a) && a.cursor < DEVICE_COUNT
    ensures var (b, r) := Allocated(a);
            match r
            case Some(id) =>
              && id < DEVICE_COUNT && !a.states[id] && TakenBefore(a, id)
              && b.states == a.states[id := true] && b.cursor == if id == DEVICE_COUNT - 1 then 0 else id + 1
            case None => b == a && forall x :: 0 <= x < DEVICE_COUNT ==> a.states[x]
  {
    hide Allocated, TakenBefore;
    AllocatesFirstFree(a);
    var r := Allocated(a).1;
    if r.Some? {
      assert r == Some(r.value) && TakenBefore(a, r.value);
    }
  }

  lemma NearerTaken(a: IdState, id: nat, x: nat)
    requires WellFormed(a) && a.cursor < DEVICE_COUNT && id < DEVICE_COUNT && x < DEVICE_COUNT
    requires TakenBefore(a, id) && Between(a.cursor, id, x)
    ensures a.states[x]
  {
    assert Distance(a.cursor, x) < Distance(a.cursor, id);
    hide After, Distance;
    assert a.states[After(a.cursor, Distance(a.cursor, x))];
  }

  lemma NotYetThere(cursor: nat, id: nat, j: nat)
    requires cursor < DEVICE_COUNT && id < DEVICE_COUNT && j < Distance(cursor, id)
    ensures After(cursor, j) != id
  {
  }

  /** The id just before the cursor is the last one met when going round. */
  lemma LastInOrder(cursor: nat, id: nat, x: nat)
    requires id < DEVICE_COUNT && cursor == (id + 1) % DEVICE_COUNT && x < DEVICE_COUNT
    ensures Distance(cursor, id) == DEVICE_COUNT - 1
    ensures x != id ==> Distance(cursor, x) < Distance(cursor, id)
  {
  }

  /** One step further round the ids; after all of them the search is back where it began. */
  lemma NextId(cursor: nat, steps: nat)
    requires cursor < DEVICE_COUNT && steps < DEVICE_COUNT
    ensures (After(cursor, steps) + 1) % DEVICE_COUNT == After(cursor, steps + 1)
    ensures After(cursor, steps + 1) == cursor <==> steps + 1 == DEVICE_COUNT
  {
  }

  lemma AtStart(cursor: nat)
    requires cursor < DEVICE_COUNT
    ensures After(cursor, 0) == cursor
  {
  }

  lemma SearchStep(states: seq<bool>, cursor: nat, steps: nat)
    requires |states| == DEVICE_COUNT && cursor < DEVICE_COUNT && steps < DEVICE_COUNT
    ensures Search(states, cursor, steps)
         == if !states[After(cursor, steps)] then Some(After(cursor, steps)) else Search(states, cursor, steps + 1)
    ensures Search(states, cursor, DEVICE_COUNT) == None
  {
  }

  /** The id allocated last and released again is handed out next only if every other id is taken. */
  lemma LatestReissuedLast(a: IdState, id: nat)
    requires WellFormed(a) && Allocated(a).1 == Some(id) && a.cursor < DEVICE_COUNT
    ensures id < DEVICE_COUNT
    ensures var b := Released(Allocated(a).0, id);
            Allocated(b).1 == Some(id) <==> forall x :: 0 <= x < DEVICE_COUNT && x != id ==> a.states[x]
  {
    hide After, Distance, Allocated, TakenBefore;
    AllocatesFirstFree(a);
    var c := Allocated(a).0;
    ReissuedNext(c, id);
    OthersTaken(c, id);
    assert c.states == a.states[id := true];
    assert forall x :: 0 <= x < DEVICE_COUNT && x != id ==> c.states[x] == a.states[x];
  }

  lemma OthersTaken(c: IdState, id: nat)
    requires WellFormed(c) && id < DEVICE_COUNT && c.cursor == (id + 1) % DEVICE_COUNT
    ensures TakenBefore(c, id) <==> forall x :: 0 <= x < DEVICE_COUNT && x != id ==> c.states[x]
  {
    hide After, Distance;
    LastInOrder(c.cursor, id, id);
    forall x | 0 <= x < DEVICE_COUNT && x != id
      ensures TakenBefore(c, id) ==> c.states[x]
    {
      LastInOrder(c.cursor, id, x);
      assert TakenBefore(c, id) ==> c.states[After(c.cursor, Distance(c.cursor, x))];
    }
    forall j | 0 <= j < Distance(c.cursor, id)
      ensures After(c.cursor, j) != id
    {
      NotYetThere(c.cursor, id, j);
    }
  }

  /** An id released earlier can be handed out next although another id is free: all ids taken, 9 and then 0
      released, with the cursor back at 0. */
  lemma ReleasedIdCanReturnAtOnce()
    ensures var full := IdState(seq(DEVICE_COUNT, _ => true), 0);
            var a := Released(Released(full, 9), 0);
            !a.states[9] && Allocated(a).1 == Some(0)
  {
  }

  // ----- storage -----

  /** Bits, most significant first. */
  function Pack(bits: seq<bool>): nat {
    if |bits| == 0 then 0 else 2 * Pack(bits[..|bits| - 1]) + (if bits[|bits| - 1] then 1 else 0)
  }

  function Unpack(b: nat, n: nat): (bits: seq<bool>)
    ensures |bits| == n
  {
    if n == 0 then [] else Unpack(b / 2, n - 1) + [b % 2 == 1]
  }

  function Pow2(n: nat): nat {
    if n == 0 then 1 else 2 * Pow2(n - 1)
  }

  lemma {:induction false} PackUnpack(bits: seq<bool>)
    ensures Pack(bits) < Pow2(|bits|) && Unpack(Pack(bits), |bits|) == bits
  {
    if |bits| > 0 {
      PackUnpack(bits[..|bits| - 1]);
    }
  }

  lemma {:induction false} UnpackPack(b: nat, n: nat)
    requires b < Pow2(n)
    ensures Pack(Unpack(b, n)) == b
  {
    if n > 0 {
      UnpackPack(b / 2, n - 1);
      assert Unpack(b, n)[..n - 1] == Unpack(b / 2, n - 1);
    }
  }

  function ByteOf(bits: seq<bool>): Byte
    requires |bits| == 8
  {
    PackUnpack(bits);
    assert Pow2(8) == 2 * 2 * 2 * 2 * Pow2(4) && Pow2(4) == 16;
    Pack(bits)
  }

  /** The bitmap as bytes, eight ids to a byte. */
  function ToBytes(states: seq<bool>): (bytes: seq<Byte>)
    requires |states| % 8 == 0
    ensures |bytes| == |states| / 8
  {
    if |states| == 0 then [] else [ByteOf(states[..8])] + ToBytes(states[8..])
  }

  function FromBytes(bytes: seq<Byte>): (states: seq<bool>)
    ensures |states| == 8 * |bytes|
  {
    if |bytes| == 0 then [] else Unpack(bytes[0], 8) + FromBytes(bytes[1..])
  }

  lemma {:induction false} BitmapRoundTrip(states: seq<bool>)
    requires |states| % 8 == 0
    ensures FromBytes(ToBytes(states)) == states
  {
    if |states| > 0 {
      BitmapRoundTrip(states[8..]);
      PackUnpack(states[..8]);
      assert states == states[..8] + states[8..];
    }
  }

  lemma {:induction false} BytesRoundTrip(bytes: seq<Byte>)
    ensures ToBytes(FromBytes(bytes)) == bytes
  {
    if |bytes| > 0 {
      BytesRoundTrip(bytes[1..]);
      assert Pow2(8) == 2 * 2 * 2 * 2 * Pow2(4) && Pow2(4) == 16;
      UnpackPack(bytes[0], 8);
      assert FromBytes(bytes)[..8] == Unpack(bytes[0], 8);
      assert FromBytes(bytes)[8..] == FromBytes(bytes[1..]);
    }
  }

  function Serialized(a: IdState): (bytes: seq<Byte>)
    requires WellFormed(a)
    ensures |bytes| == BYTE_COUNT + 4
  {
    LeBytes(a.cursor, 4) + ToBytes(a.states)
  }

  function Deserialized(bytes: seq<Byte>): Option<IdState> {
    if |bytes| != BYTE_COUNT + 4 then None else Some(IdState(FromBytes(bytes[4..]), LeValue(bytes[..4])))
  }

  function FourByteNumber(b0: nat, b1: nat, b2: nat, b3: nat): nat {
    b0 + 0x100 * b1 + 0x1_0000 * b2 + 0x100_0000 * b3
  }

  /** What the stored bytes mean: four cursor bytes, least significant first, and a bit for each id, the first of
      eight in the most significant bit of its byte. */
  lemma StoredLayout(bytes: seq<Byte>)
    requires |bytes| == 516
    ensures Deserialized(bytes).Some?
    ensures var a := Deserialized(bytes).value;
            && a.cursor == FourByteNumber(bytes[0], bytes[1], bytes[2], bytes[3])
            && |a.states| == 4096
            && forall i :: 0 <= i < 4096 ==> (a.states[i] <==> BitSet(bytes[4 + i / 8], i % 8))
  {
    CursorBytes(bytes[..4], bytes[0], bytes[1], bytes[2], bytes[3]);
    forall i | 0 <= i < 4096
      ensures Deserialized(bytes).value.states[i] <==> BitSet(bytes[4 + i / 8], i % 8)
    {
      StatesAt(bytes[4..], i);
    }
  }

  /** Bit k of a byte, counted from the most significant one. */
  predicate BitSet(b: Byte, k: nat)
    requires k < 8
  {
    b / (if k == 0 then 128 else if k == 1 then 64 else if k == 2 then 32 else if k == 3 then 16
         else if k == 4 then 8 else if k == 5 then 4 else if k == 6 then 2 else 1) % 2 == 1
  }

  lemma {:induction false} StatesAt(bytes: seq<Byte>, i: nat)
    requires i < 8 * |bytes|
    ensures FromBytes(bytes)[i] <==> BitSet(bytes[i / 8], i % 8)
  {
    hide Unpack, BitSet;
    if i < 8 {
      UnpackedBits(bytes[0], i);
    } else {
      StatesAt(bytes[1..], i - 8);
    }
  }

  lemma {:induction false} UnpackBit(b: nat, n: nat, k: nat)
    requires k < n
    ensures Pow2(n - 1 - k) > 0 && (Unpack(b, n)[k] <==> b / Pow2(n - 1 - k) % 2 == 1)
  {
    if k < n - 1 {
      UnpackBit(b / 2, n - 1, k);
      DivDiv(b, 2, Pow2(n - 2 - k));
    }
  }

  lemma UnpackedBits(b: Byte, k: nat)
    requires k < 8
    ensures Unpack(b, 8)[k] <==> BitSet(b, k)
  {
    UnpackBit(b, 8, k);
    hide Unpack;
    assert Pow2(3) == 8 && Pow2(4) == 2 * Pow2(3) && Pow2(5) == 2 * Pow2(4) && Pow2(6) == 2 * Pow2(5);
    assert Pow2(7) == 2 * Pow2(6);
  }

  /** Storing and loading are inverse: every allocator state survives, and every stored value of the right
      length is the serialisation of what it loads as. */
  lemma StorageRoundTrip(a: IdState)
    requires WellFormed(a)
    ensures Deserialized(Serialized(a)) == Some(a)
  {
    var bytes := Serialized(a);
    assert bytes[..4] == LeBytes(a.cursor, 4) && bytes[4..] == ToBytes(a.states);
    BitmapRoundTrip(a.states);
    Pow256Four();
    LeValueOfBytes(a.cursor, 4);
  }

  lemma StoredIsSerialized(bytes: seq<Byte>)
    ensures Deserialized(bytes).Some? <==> |bytes| == BYTE_COUNT + 4
    ensures Deserialized(bytes).Some? ==>
              var a := Deserialized(bytes).value; WellFormed(a) && Serialized(a) == bytes
  {
    if |bytes| == BYTE_COUNT + 4 {
      LeBytesOfValue(bytes[..4]);
      Pow256Four();
      BytesRoundTrip(bytes[4..]);
      assert bytes == bytes[..4] + bytes[4..];
    }
  }

  // ----- the allocator object -----

  class DeviceIdAllocator {
    var states: seq<bool>
    var cursor: nat

    ghost predicate Valid()
      reads this
    {
      WellFormed(Value())
    }

    function Value(): IdState
      reads this
    {
      IdState(states, cursor)
    }

    constructor ()
      ensures Valid() && Value() == Fresh()
    {
      states := seq(DEVICE_COUNT, _ => false);
      cursor := 0;
    }

    constructor FromValue(a: IdState)
      requires WellFormed(a)
      ensures Valid() && Value() == a
    {
      states, cursor := a.states, a.cursor;
    }

    static method Deserialize(bytes: seq<Byte>) returns (r: Option<IdState>)
      ensures r == Deserialized(bytes)
    {
      if |bytes| != BYTE_COUNT + 4 {
        return None;
      }
      var b0: nat, b1: nat, b2: nat, b3: nat := bytes[0], bytes[1], bytes[2], bytes[3];
      var cursor := b0 + b1 * 0x100 + b2 * 0x1_0000 + b3 * 0x100_0000;
      CursorBytes(bytes[..4], b0, b1, b2, b3);
      return Some(IdState(FromBytes(bytes[4..]), cursor));
    }

    method Allocate() returns (r: Option<nat>)
      requires Valid()
      modifies this
      ensures Valid()
      ensures (Value(), r) == Allocated(old(Value()))
      // the first free id from the cursor on, going round; a stored cursor past the last id finds none
      ensures var before, c := old(states), old(cursor);
              match r
              case Some(id) =>
                && c < 4096 && id < 4096 && !before[id]
                && (forall x :: 0 <= x < 4096 && Between(c, id, x) ==> before[x])
                && states == before[id := true] && cursor == if id == 4095 then 0 else id + 1
              case None =>
                && (c < 4096 ==> forall x :: 0 <= x < 4096 ==> before[x])
                && states == before && cursor == c
    {
      FoundBetween(Value());
      hide Search, After, Between;
      var start := cursor;
      ghost var a := Value();
      ghost var steps := 0;
      if start < DEVICE_COUNT {
        AtStart(start);
      }
      while true
        invariant a == old(Value()) && states == a.states && |states| == DEVICE_COUNT && steps <= DEVICE_COUNT
        invariant start >= DEVICE_COUNT ==> steps == 0 && cursor == start
        invariant start < DEVICE_COUNT ==>
                    && steps < DEVICE_COUNT && cursor == After(start, steps)
                    && Search(a.states, start, 0) == Search(a.states, start, steps)
        decreases DEVICE_COUNT - steps
      {
        var id := cursor;
        if cursor >= |states| {
          return None;
        }
        SearchStep(a.states, start, steps);
        var value := states[cursor];
        cursor := (cursor + 1) % DEVICE_COUNT;
        if !value {
          states := states[id := true];
          return Some(id);
        }
        NextId(start, steps);
        steps := steps + 1;
        if cursor == start {
          return None;
        }
      }
    }

    method Release(id: nat)
      requires Valid() && id < DEVICE_COUNT
      modifies this
      ensures Valid() && Value() == Released(old(Value()), id)
    {
      states := states[id := false];
    }

    method Serialize() returns (bytes: seq<Byte>)
      requires Valid()
      ensures bytes == Serialized(Value())
    {
      bytes := [];
      bytes := bytes + [cursor % 0x100];
      bytes := bytes + [cursor / 0x100 % 0x100];
      bytes := bytes + [cursor / 0x1_0000 % 0x100];
      bytes := bytes + [cursor / 0x100_0000 % 0x100];
      CursorPushed(cursor);
      bytes := bytes + ToBytes(states);
    }
  }

  lemma CursorBytes(b: seq<Byte>, b0: nat, b1: nat, b2: nat, b3: nat)
    requires |b| == 4 && b[0] == b0 && b[1] == b1 && b[2] == b2 && b[3] == b3
    ensures LeValue(b) == b0 + b1 * 0x100 + b2 * 0x1_0000 + b3 * 0x100_0000
  {
    assert b[1..][1..] == b[2..] && b[2..][1..] == b[3..] && b[3..][1..] == [];
    assert LeValue(b[3..]) == b[3];
    assert LeValue(b[2..]) == b[2] + 256 * LeValue(b[3..]);
    assert LeValue(b[1..]) == b[1] + 256 * LeValue(b[2..]);
  }

  lemma CursorPushed(c: nat)
    ensures LeBytes(c, 4) == [c % 0x100, c / 0x100 % 0x100, c / 0x1_0000 % 0x100, c / 0x100_0000 % 0x100]
  {
    DivDiv(c, 0x100, 0x100);
    DivDiv(c, 0x1_0000, 0x100);
    assert LeBytes(c, 4) == [c % 256] + LeBytes(c / 256, 3);
    assert LeBytes(c / 256, 3) == [c / 256 % 256] + LeBytes(c / 256 / 256, 2);
    assert LeBytes(c / 256 / 256, 2) == [c / 256 / 256 % 256] + LeBytes(c / 256 / 256 / 256, 1);
  }
}

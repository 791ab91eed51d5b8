/**
 The ring buffer of src/daemon/argo_daemon_exit_queue.c that carries exit codes from the SIGCHLD
 handler to the completion task, as a sequential object.
 */
module ExitQueue {
  import opened Wrappers

  const SIZE: nat := 128

  /** What the handler reports about one child. */
  datatype Exit = Exit(pid: int, code: int, time: int)

  datatype Slot = Slot(pid: int, code: int, time: int, valid: bool) {
    function Content(): Exit {
      Exit(pid, code, time)
    }
  }

  /** The memory of the queue. */
  datatype Ring = Ring(slots: seq<Slot>, write: nat, read: nat, dropped: nat)

  function Next(i: nat): (r: nat)
    ensures r < SIZE
  {
    (i + 1) % SIZE
  }

  function Occupancy(q: Ring): (n: nat)
    requires q.read < SIZE && q.write < SIZE
    ensures n < SIZE && (q.read + n) % SIZE == q.write
  {
    if q.write >= q.read then q.write - q.read else q.write + SIZE - q.read
  }

  /** The `i`-th occupied slot. */
  function Occupied(q: Ring, i: nat): Slot
    requires |q.slots| == SIZE
  {
    q.slots[(q.read + i) % SIZE]
  }

  /** Indices in range, and the occupied slots marked valid. */
  predicate Sound(q: Ring) {
    && |q.slots| == SIZE && q.write < SIZE && q.read < SIZE
    && forall i :: 0 <= i < Occupancy(q) ==> Occupied(q, i).valid
  }

  function Contents(q: Ring): (r: seq<Exit>)
    requires Sound(q)
  {
    seq(Occupancy(q), i requires 0 <= i < Occupancy(q) => Occupied(q, i).Content())
  }

  class Queue {
    const entries: array<Slot>
    var writeIdx: nat
    var readIdx: nat
    var dropped: nat

    ghost function Abs(): Ring
      reads this, entries
    {
      Ring(entries[..], writeIdx, readIdx, dropped)
    }

    ghost predicate Valid()
      reads this, entries
    {
      Sound(Abs())
    }

    /** exit_queue_init */
    constructor ()
      ensures Valid() && Contents(Abs()) == [] && dropped == 0 && fresh(entries)
    {
      entries := new Slot[SIZE](_ => Slot(0, 0, 0, false));
      writeIdx, readIdx, dropped := 0, 0, 0;
    }

    /** A full queue turns the new entry away and counts it; it does not drop an old one. */
    method Push(pid: int, code: int, now: int) returns (ok: bool)
      requires Valid()
      modifies this`writeIdx, this`dropped, entries
      ensures Valid()
      ensures ok <==> |old(Contents(Abs()))| < 127
      ensures Contents(Abs()) == old(Contents(Abs())) + if ok then [Exit(pid, code, now)] else []
      ensures dropped == old(dropped) + if ok then 0 else 1
    {
      ghost var before := Abs();
      var currentWrite := writeIdx;
      var nextWrite := (currentWrite + 1) % SIZE;
      if nextWrite == readIdx {
        dropped := dropped + 1;
        assert Abs() == before.(dropped := dropped);
        assert forall i :: 0 <= i < Occupancy(before) ==> Occupied(Abs(), i) == Occupied(before, i);
        return false;
      }
      entries[currentWrite] := Slot(pid, code, now, true);
      writeIdx := nextWrite;
      ok := true;
      assert Abs().slots == before.slots[currentWrite := Slot(pid, code, now, true)];
      PushedContents(before, Abs(), Slot(pid, code, now, true));
    }

    method Pop() returns (r: Option<Exit>)
      requires Valid()
      modifies this`readIdx, entries
      ensures Valid()
      ensures if old(Contents(Abs())) == [] then r == None && Contents(Abs()) == []
              else r == Some(old(Contents(Abs()))[0]) && Contents(Abs()) == old(Contents(Abs()))[1..]
    {
      ghost var before := Abs();
      if readIdx == writeIdx {
        return None;
      }
      var currentRead := readIdx;
      assert Occupied(before, 0).valid;
      if !entries[currentRead].valid {
        return None;
      }
      var entry := entries[currentRead];
      entries[currentRead] := entry.(valid := false);
      readIdx := (currentRead + 1) % SIZE;
      r := Some(entry.Content());
      assert Abs().slots == before.slots[currentRead := entry.(valid := false)];
      PoppedContents(before, Abs());
    }

    method GetDropped() returns (n: nat)
      requires Valid()
      modifies this`dropped
      ensures Valid() && n == old(dropped) && dropped == 0 && Contents(Abs()) == old(Contents(Abs()))
    {
      ghost var before := Abs();
      n := dropped;
      dropped := 0;
      assert forall i :: 0 <= i < Occupancy(before) ==> Occupied(Abs(), i) == Occupied(before, i);
    }

    method IsEmpty() returns (b: bool)
      requires Valid()
      ensures b <==> Contents(Abs()) == []
    {
      b := readIdx == writeIdx;
    }
  }

  lemma PushedContents(q: Ring, r: Ring, slot: Slot)
    requires Sound(q) && Next(q.write) != q.read && slot.valid
    requires r == q.(slots := q.slots[q.write := slot], write := Next(q.write))
    ensures Sound(r) && Contents(r) == Contents(q) + [slot.Content()]
  {
    assert Occupancy(r) == Occupancy(q) + 1;
    forall i | 0 <= i < Occupancy(r)
      ensures Occupied(r, i) == if i < Occupancy(q) then Occupied(q, i) else slot
    {
    }
  }

  lemma PoppedContents(q: Ring, r: Ring)
    requires Sound(q) && q.read != q.write
    requires r == q.(slots := q.slots[q.read := q.slots[q.read].(valid := false)], read := Next(q.read))
    ensures Sound(r) && Contents(q) == [q.slots[q.read].Content()] + Contents(r)
  {
    assert Occupancy(q) == Occupancy(r) + 1;
    forall i | 0 <= i < Occupancy(r)
      ensures Occupied(r, i) == Occupied(q, i + 1)
    {
      assert (r.read + i) % SIZE == (q.read + (i + 1)) % SIZE != q.read;
    }
    assert Occupied(q, 0) == q.slots[q.read];
  }
}

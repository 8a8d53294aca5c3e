/** The per-descriptor connection slots: a generation counter that tells the
    lifetimes of a reused descriptor apart, and the flags that make a slot valid. */
module ConnTable {

  const TWO_32: nat := 0x1_0000_0000

  type uint32 = x: int | 0 <= x < TWO_32

  datatype ConnState = Reading | Processing | Writing | Closing | Dead

  datatype Slot = Slot(generation: uint32, active: bool, state: ConnState)

  /** What activation stores: the next generation, modulo the counter's width. */
  function ActivatedSlot(slot: Slot): Slot {
    Slot((slot.generation + 1) % TWO_32, true, Reading)
  }

  function KilledSlot(slot: Slot): Slot {
    slot.(active := false, state := Dead)
  }

  predicate ValidSlot(slot: Slot, expected: uint32) {
    slot.active && slot.generation == expected && !slot.state.Closing? && !slot.state.Dead?
  }

  /** The slot after `n` activations, with any number of deactivations between them. */
  ghost predicate AfterLives(slot: Slot, n: nat) {
    slot.generation == n % TWO_32
  }

  /** A generation remembered from an earlier lifetime is valid again exactly a multiple of
      2^32 lifetimes later. */
  lemma {:induction false} GenerationWraps(slot: Slot, life: nat, now: nat)
    requires AfterLives(slot, now) && life <= now && slot.active && slot.state == Reading
    ensures ValidSlot(slot, life % TWO_32) <==> (now - life) % TWO_32 == 0
  {
  }

  lemma {:induction false} LivesAreCounted(slot: Slot, now: nat)
    requires AfterLives(slot, now)
    ensures AfterLives(ActivatedSlot(slot), now + 1) && AfterLives(KilledSlot(slot), now)
  {
  }

  /** So it is never valid fewer than 2^32 lifetimes later, whatever the slot's state, and
      never once the slot has been killed. */
  lemma {:induction false} StaleGenerationIsInvalid(slot: Slot, now: nat, life: nat)
    requires AfterLives(slot, now) && life <= now && now - life < TWO_32
    ensures ValidSlot(slot, life % TWO_32) ==> life == now
    ensures AfterLives(ActivatedSlot(slot), now + 1)
    ensures AfterLives(KilledSlot(slot), now)
    ensures !ValidSlot(KilledSlot(slot), life % TWO_32)
  {
    LivesAreCounted(slot, now);
    var reading := slot.(active := true, state := Reading);
    assert ValidSlot(slot, life % TWO_32) ==> ValidSlot(reading, life % TWO_32);
    GenerationWraps(reading, life, now);
  }

  class Table {
    const conns: array<Slot>

    constructor (maxFd: nat)
      ensures fresh(conns) && conns.Length == maxFd
      ensures forall fd :: 0 <= fd < maxFd ==> conns[fd] == Slot(0, false, Dead)
    {
      conns := new Slot[maxFd](_ => Slot(0, false, Dead));
    }

    /** Starts a new lifetime; 0 reports a descriptor outside the table (and, at the
        end of the counter's range, a wrapped generation). */
    method Activate(fd: int) returns (generation: uint32)
      modifies conns
      ensures !(0 <= fd < conns.Length) ==> generation == 0 && conns[..] == old(conns[..])
      ensures 0 <= fd < conns.Length ==>
        && conns[..] == old(conns[..])[fd := ActivatedSlot(old(conns[fd]))]
        && generation == conns[fd].generation
    {
      if fd < 0 || conns.Length <= fd {
        return 0;
      }
      generation := (conns[fd].generation + 1) % TWO_32;
      conns[fd] := conns[fd].(generation := generation);
      conns[fd] := conns[fd].(state := Reading);
      conns[fd] := conns[fd].(active := true);
    }

    method Deactivate(fd: int)
      modifies conns
      ensures !(0 <= fd < conns.Length) ==> conns[..] == old(conns[..])
      ensures 0 <= fd < conns.Length ==>
        conns[..] == old(conns[..])[fd := KilledSlot(old(conns[fd]))]
    {
      if fd < 0 || conns.Length <= fd {
        return;
      }
      conns[fd] := conns[fd].(active := false);
      conns[fd] := conns[fd].(state := Dead);
    }

    method IsValid(fd: int, expected: uint32) returns (valid: bool)
      ensures valid <==> 0 <= fd < conns.Length && ValidSlot(conns[fd], expected)
    {
      if fd < 0 || conns.Length <= fd {
        return false;
      }
      if !conns[fd].active {
        return false;
      }
      if conns[fd].generation != expected {
        return false;
      }
      var state := conns[fd].state;
      return !(state == Closing || state == Dead);
    }
  }
}

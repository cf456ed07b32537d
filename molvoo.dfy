/** The viewer state moovoo's mouse handler and pick FIFO update (View in
    moovoo/main.cpp, Molvoo in moovoo/moovoo.cpp): the selection range, the
    drag and rotate flags, the picked atom and the two pick counters. */
module Viewer {
  import opened Molecule
  import opened Selection

  /** GLFW's constants for the buttons, the press action and the shift bit. */
  const MouseButton1 := 0
  const MouseButton2 := 1
  const ActionPress := 1
  const ModShift: bv32 := 1

  /** A C++ uint: 32 bits, read as a number. */
  type U32 = x: int | 0 <= x < 0x1_0000_0000

  /** `++` on a uint: wraps from 2^32 - 1 to 0. */
  function Inc(u: U32): (r: U32)
    ensures u < 0xFFFF_FFFF ==> r == u + 1
    ensures u == 0xFFFF_FFFF ==> r == 0
  {
    (u + 1) % 0x1_0000_0000
  }

  /** Pick::fifoSize, a power of two. */
  const FifoSize := 4

  /** ~0u: the value a consumed pick slot is reset to. */
  const NoPick: U32 := 0xFFFF_FFFF

  /** A Pick written by the GPU: atom index and distance * 10000, as uint. */
  datatype Pick = Pick(atom: U32, distance: U32)

  /** counter & (fifoSize - 1), which for a power-of-two fifoSize is the
      remainder by fifoSize: the FIFO slot a pick counter points at. */
  function Slot(counter: U32): (s: nat)
    ensures s < FifoSize
  {
    counter % FifoSize
  }

  /** Consecutive counter values use consecutive slots round the FIFO, also
      where the 32-bit counter wraps to 0. */
  lemma SlotsCycle(counter: U32)
    ensures Slot(Inc(counter)) == (Slot(counter) + 1) % FifoSize
  {
    if counter == 0xFFFF_FFFF {
      assert Slot(counter) == 3;
    } else {
      var q := counter / FifoSize;
      assert counter == FifoSize * q + Slot(counter);
    }
  }

  /** A uint stored into an int: the same 32 bits read as two's complement. */
  function AsInt(u: U32): (r: int)
    ensures -0x8000_0000 <= r < 0x8000_0000
    ensures r == u || r == u - 0x1_0000_0000
  {
    if u < 0x8000_0000 then u else u - 0x1_0000_0000
  }

  /** A reset slot reads back as "no atom", and every atom index of a table
      that fits an int reads back as itself. */
  lemma AsIntPicks(u: U32, n: int)
    requires n <= 0x8000_0000
    ensures AsInt(u) == -1 <==> u == NoPick
    ensures u < n ==> AsInt(u) == u
  {
  }

  /** The viewer's scalar fields, as values. */
  datatype ViewState = ViewState(
    startAtom: int, endAtom: int, mouseAtom: int,
    mouseDistance: real, selectedDistance: real,
    dragging: bool, rotating: bool,
    pickWriteIndex: U32, pickReadIndex: U32)

  class Molvoo {
    /** The molecule model's atoms. */
    const atoms: array<Atom>
    /** The chain ID of each decoded atom. */
    const chains: seq<char>

    var startAtom: int
    var endAtom: int
    var mouseAtom: int
    var mouseDistance: real
    var selectedDistance: real
    var dragging: bool
    var rotating: bool
    var pickWriteIndex: U32
    var pickReadIndex: U32

    ghost function Fields(): ViewState
      reads this
    {
      ViewState(startAtom, endAtom, mouseAtom, mouseDistance, selectedDistance,
                dragging, rotating, pickWriteIndex, pickReadIndex)
    }

    /** The selection range. */
    ghost function Selection(): Range
      reads this
    {
      Range(startAtom, endAtom)
    }

    /** The selection is empty or a range of atoms, and mouseAtom is an atom
        or -1. */
    ghost predicate Valid()
      reads this
    {
      |chains| == atoms.Length && WellFormed(Selection(), atoms.Length) && AtomOrNone(mouseAtom, atoms.Length)
    }

    /** The state the viewer starts in: nothing selected, nothing picked. */
    constructor (atoms: array<Atom>, chains: seq<char>)
      requires |chains| == atoms.Length
      ensures this.atoms == atoms && this.chains == chains && Valid()
      ensures Fields() == ViewState(-1, -1, -1, 0.0, 0.0, false, false, 0, 0)
    {
      this.atoms := atoms;
      this.chains := chains;
      startAtom := -1;
      endAtom := -1;
      mouseAtom := -1;
      mouseDistance := 0.0;
      selectedDistance := 0.0;
      dragging := false;
      rotating := false;
      pickWriteIndex := 0;
      pickReadIndex := 0;
    }

    /** mouseButtonHandler: button 1 press reselects, button 1 release ends
        a drag, button 2 starts and ends a rotation; other buttons do
        nothing. */
    method MouseButtonHandler(button: int, action: int, mods: bv32)
      requires Valid()
      modifies this, atoms
      ensures Valid()
      ensures button == MouseButton1 && action == ActionPress ==>
        var next := Pressed(old(Selection()), old(mouseAtom), mods & ModShift != 0, chains);
        && Selection() == next
        && atoms[..] == Reselect(old(atoms[..]), old(Selection()), next)
        && Fields() == old(Fields()).(startAtom := next.start, endAtom := next.end,
             selectedDistance := if next != Empty then old(mouseDistance) else old(selectedDistance))
      ensures button == MouseButton1 && action != ActionPress ==>
        atoms[..] == old(atoms[..]) && Fields() == old(Fields()).(dragging := false)
      ensures button == MouseButton2 ==>
        atoms[..] == old(atoms[..]) && Fields() == old(Fields()).(rotating := action == ActionPress)
      ensures button != MouseButton1 && button != MouseButton2 ==>
        atoms[..] == old(atoms[..]) && Fields() == old(Fields())
    {
      if button == MouseButton1 {
        if action == ActionPress {
          var newStart := -1;
          var newEnd := -1;
          if mouseAtom == -1 {
            newStart, newEnd := -1, -1;
          } else if mods & ModShift != 0 {
            if startAtom != -1 {
              if chains[startAtom] != chains[mouseAtom] {
                newStart, newEnd := startAtom, endAtom;
              } else {
                newStart, newEnd := startAtom, mouseAtom;
              }
            } else {
              newStart, newEnd := mouseAtom, mouseAtom;
            }
          } else {
            newStart, newEnd := mouseAtom, mouseAtom;
          }
          if startAtom != -1 {
            SetSelected(startAtom, endAtom, 0);
          }
          if newStart > newEnd {
            newStart, newEnd := newEnd, newStart;
          }
          startAtom := newStart;
          endAtom := newEnd;
          if startAtom != -1 {
            SetSelected(startAtom, endAtom, 1);
            selectedDistance := mouseDistance;
          }
        } else {
          dragging := false;
        }
      } else if button == MouseButton2 {
        if action == ActionPress {
          rotating := true;
        } else {
          rotating := false;
        }
      }
    }

    /** `for (int i = start; i <= end; ++i) atoms[i].selected = v`. */
    method SetSelected(start: int, end: int, v: int)
      requires 0 <= start <= end < atoms.Length
      modifies atoms
      ensures atoms[..] == SetFlags(old(atoms[..]), Range(start, end), v)
    {
      ghost var a0 := atoms[..];
      for i := start to end + 1
        invariant forall j :: 0 <= j < atoms.Length ==>
          atoms[j] == if start <= j < i then a0[j].(selected := v) else a0[j]
      {
        atoms[i] := atoms[i].(selected := v);
      }
    }

    /** cu.pickIndex = (pickWriteIndex_++) & (fifoSize-1): the slot the
        frame's pick shader writes. */
    method NextPickIndex() returns (slot: nat)
      modifies this
      ensures slot == Slot(old(pickWriteIndex))
      ensures Fields() == old(Fields()).(pickWriteIndex := Inc(old(pickWriteIndex)))
    {
      slot := pickWriteIndex % FifoSize;
      pickWriteIndex := (pickWriteIndex + 1) % 0x1_0000_0000;
    }

    /** The body of the pick poll loop: take the pick in the read slot into
        mouseAtom and mouseDistance, reset the slot and advance the read
        counter. The GPU writes an atom index or leaves the reset value. */
    method TakePick(picks: array<Pick>)
      requires Valid() && picks.Length == FifoSize && atoms.Length <= 0x8000_0000
      requires var p := picks[Slot(pickReadIndex)]; p.atom == NoPick || p.atom < atoms.Length
      modifies this, picks
      ensures Valid()
      ensures var p := old(picks[Slot(pickReadIndex)]);
        Fields() == old(Fields()).(mouseAtom := if p.atom == NoPick then -1 else p.atom,
                                   mouseDistance := p.distance as real / 10000.0,
                                   pickReadIndex := Inc(old(pickReadIndex)))
      ensures picks[..] == old(picks[..])[Slot(old(pickReadIndex)) := Pick(NoPick, NoPick)]
    {
      var slot := pickReadIndex % FifoSize;
      var p := picks[slot];
      AsIntPicks(p.atom, atoms.Length);
      mouseAtom := AsInt(p.atom);
      mouseDistance := p.distance as real / 10000.0;
      picks[slot] := Pick(NoPick, NoPick);
      pickReadIndex := (pickReadIndex + 1) % 0x1_0000_0000;
    }
  }
}

/** The atom-range selection of moovoo's viewer (View::mouseButtonHandler in
    moovoo/main.cpp, Molvoo::mouseButtonHandler in moovoo/moovoo.cpp): the
    range a button-1 press selects, and the selected flags it leaves. */
module Selection {
  import opened Molecule

  /** startAtom .. endAtom, inclusive; Empty when nothing is selected. */
  datatype Range = Range(start: int, end: int)

  const Empty := Range(-1, -1)

  /** Nothing selected, or 0 <= start <= end < n. */
  predicate WellFormed(r: Range, n: int) {
    r == Empty || 0 <= r.start <= r.end < n
  }

  /** Atom i is covered by the range's selection loop. */
  predicate InRange(r: Range, i: int) {
    r.start != -1 && r.start <= i <= r.end
  }

  /** An atom index the pick left in mouseAtom: -1 for none. */
  predicate AtomOrNone(a: int, n: int) {
    a == -1 || 0 <= a < n
  }

  /** newStart and newEnd before the swap, given the chain ID of every atom. */
  function Target(sel: Range, mouse: int, shift: bool, chains: seq<char>): (r: Range)
    requires AtomOrNone(sel.start, |chains|) && AtomOrNone(mouse, |chains|)
    ensures r == Empty || r == sel || r.end == mouse
    ensures mouse != -1 && (!shift || sel.start == -1) ==> r == Range(mouse, mouse)
  {
    if mouse == -1 then Empty
    else if shift then
      if sel.start != -1 then
        if chains[sel.start] != chains[mouse] then sel
        else Range(sel.start, mouse)
      else Range(mouse, mouse)
    else Range(mouse, mouse)
  }

  /** `if (newStart > newEnd) std::swap(newStart, newEnd)`. */
  function Ordered(r: Range): (o: Range)
    ensures o.start <= o.end
    ensures o == r || o == Range(r.end, r.start)
    ensures r.start <= r.end ==> o == r
  {
    if r.start > r.end then Range(r.end, r.start) else r
  }

  /** The range selected after a button-1 press. */
  function Pressed(sel: Range, mouse: int, shift: bool, chains: seq<char>): (r: Range)
    requires WellFormed(sel, |chains|) && AtomOrNone(mouse, |chains|)
    ensures mouse == -1 ==> r == Empty
    ensures mouse != -1 && (!shift || sel == Empty) ==> r == Range(mouse, mouse)
    ensures mouse != -1 && shift && sel != Empty && chains[sel.start] == chains[mouse] ==>
      r.start == (if sel.start <= mouse then sel.start else mouse)
      && r.end == (if sel.start <= mouse then mouse else sel.start)
    ensures mouse != -1 && shift && sel != Empty && chains[sel.start] != chains[mouse] ==> r == sel
    ensures WellFormed(r, |chains|)
  {
    Ordered(Target(sel, mouse, shift, chains))
  }

  // ---------------------------------------------------------------- flags

  /** The loop `for (i = start; i <= end; ++i) atoms[i].selected = v`. */
  function SetFlags(atoms: seq<Atom>, r: Range, v: int): (s: seq<Atom>)
    ensures |s| == |atoms|
    ensures forall i :: 0 <= i < |atoms| ==> s[i].connections == atoms[i].connections
    ensures forall i :: 0 <= i < |atoms| && InRange(r, i) ==> s[i].selected == v
    ensures forall i :: 0 <= i < |atoms| && !InRange(r, i) ==> s[i] == atoms[i]
  {
    seq(|atoms|, i requires 0 <= i < |atoms| => if InRange(r, i) then atoms[i].(selected := v) else atoms[i])
  }

  /** The old range cleared to 0, then the new range set to 1. */
  function Reselect(atoms: seq<Atom>, prev: Range, next: Range): (s: seq<Atom>)
    ensures |s| == |atoms|
    ensures forall i :: 0 <= i < |atoms| ==> s[i].connections == atoms[i].connections
    ensures forall i :: 0 <= i < |atoms| && InRange(next, i) ==> s[i].selected == 1
    ensures forall i :: 0 <= i < |atoms| && InRange(prev, i) && !InRange(next, i) ==> s[i].selected == 0
    ensures forall i :: 0 <= i < |atoms| && !InRange(prev, i) && !InRange(next, i) ==> s[i] == atoms[i]
  {
    SetFlags(SetFlags(atoms, prev, 0), next, 1)
  }

  /** The selected flags show exactly the range r. */
  predicate Shows(atoms: seq<Atom>, r: Range) {
    forall i :: 0 <= i < |atoms| ==> atoms[i].selected == if InRange(r, i) then 1 else 0
  }

  /** Flags that showed the old range show the new one after Reselect. */
  lemma ReselectShows(atoms: seq<Atom>, prev: Range, next: Range)
    requires Shows(atoms, prev)
    ensures Shows(Reselect(atoms, prev, next), next)
  {
    var s := Reselect(atoms, prev, next);
    forall i | 0 <= i < |atoms|
      ensures s[i].selected == if InRange(next, i) then 1 else 0
    {
      if !InRange(next, i) && !InRange(prev, i) {
        assert s[i] == atoms[i];
      }
    }
  }

  /** Fresh atoms show the empty selection the viewer starts with. */
  lemma FreshShowsEmpty(n: nat)
    ensures Shows(seq(n, _ => FreshAtom()), Empty)
  {
  }
}

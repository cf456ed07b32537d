/** The atom table of moovoo's molecule model (MoleculeModel in
    moovoo/moovoo.cpp, Model in moovoo/main.cpp): the selected flag and the
    five bond slots of each atom, and the pass that fills the slots from the
    bond pairs the PDB decoder produced. */
module Molecule {
  /** Atom::connections has five entries. */
  const SlotCount := 5

  /** The value of an empty slot. */
  const NoAtom := -1

  /** int connections[5]. */
  type Slots = s: seq<int> | |s| == SlotCount witness [-1, -1, -1, -1, -1]

  /** The parts of Atom this model keeps; position, radius, colour, mass and
      acceleration are floats for the GPU and are left out. */
  datatype Atom = Atom(selected: int, connections: Slots)

  /** A bond (first, second) between two atom indices. */
  datatype Pair = Pair(first: int, second: int)

  /** Atom a{} with std::fill(connections, -1): nothing selected, no bonds. */
  function FreshAtom(): Atom {
    Atom(0, [NoAtom, NoAtom, NoAtom, NoAtom, NoAtom])
  }

  /** Every pair names two atoms of the table. */
  predicate PairsIn(pairs: seq<Pair>, n: int) {
    forall i :: 0 <= i < |pairs| ==> 0 <= pairs[i].first < n && 0 <= pairs[i].second < n
  }

  // ---------------------------------------------------------------- one slot

  /** The index of the first free slot, or |s| when every slot is taken. */
  function FirstFree(s: seq<int>): (j: nat)
    ensures j <= |s|
    ensures forall i :: 0 <= i < j ==> s[i] != NoAtom
    ensures j < |s| ==> s[j] == NoAtom
  {
    if |s| == 0 then 0
    else if s[0] == NoAtom then 0
    else 1 + FirstFree(s[1..])
  }

  /** The slots after `for (auto &i : connections) if (i == -1) { i = v; break; }`. */
  function Link(s: seq<int>, v: int): (r: seq<int>)
    ensures |r| == |s|
    ensures forall i :: 0 <= i < |s| && s[i] != NoAtom ==> r[i] == s[i]
  {
    if |s| == 0 then []
    else if s[0] == NoAtom then [v] + s[1..]
    else [s[0]] + Link(s[1..], v)
  }

  /** The scan writes v into the first free slot and leaves every other slot
      as it was; with no free slot the bond is dropped. */
  lemma {:induction false} LinkFirstFree(s: seq<int>, v: int)
    ensures FirstFree(s) < |s| ==> Link(s, v) == s[FirstFree(s) := v]
    ensures FirstFree(s) == |s| ==> Link(s, v) == s
  {
    if |s| > 0 && s[0] != NoAtom {
      LinkFirstFree(s[1..], v);
      assert s == [s[0]] + s[1..];
    }
  }

  // ---------------------------------------------------------------- the bond pass

  /** One pair (a, b): b goes into a's first free slot, then a into b's. */
  function LinkPair(atoms: seq<Atom>, p: Pair): (r: seq<Atom>)
    requires 0 <= p.first < |atoms| && 0 <= p.second < |atoms|
    ensures |r| == |atoms|
    ensures forall i :: 0 <= i < |atoms| && i != p.first && i != p.second ==> r[i] == atoms[i]
    ensures forall i :: 0 <= i < |atoms| ==> r[i].selected == atoms[i].selected
  {
    var a := atoms[p.first];
    var s1 := atoms[p.first := a.(connections := Link(a.connections, p.second))];
    var b := s1[p.second];
    s1[p.second := b.(connections := Link(b.connections, p.first))]
  }

  /** The atom table after `for (auto &p : pairs)` has handled every pair. */
  function Connected(atoms: seq<Atom>, pairs: seq<Pair>): (r: seq<Atom>)
    requires PairsIn(pairs, |atoms|)
    ensures |r| == |atoms|
    ensures forall i :: 0 <= i < |atoms| ==> r[i].selected == atoms[i].selected
    decreases |pairs|
  {
    if |pairs| == 0 then atoms
    else LinkPair(Connected(atoms, pairs[..|pairs| - 1]), pairs[|pairs| - 1])
  }

  /** The bond partners of atom a in pair order: the second atom of a pair
      whose first is a, then the first atom of a pair whose second is a. */
  function Partners(pairs: seq<Pair>, a: int): (ps: seq<int>)
    ensures forall v :: v in ps ==> exists j :: 0 <= j < |pairs| && (pairs[j] == Pair(a, v) || pairs[j] == Pair(v, a))
    decreases |pairs|
  {
    if |pairs| == 0 then []
    else
      var p := pairs[|pairs| - 1];
      Partners(pairs[..|pairs| - 1], a)
        + (if p.first == a then [p.second] else [])
        + (if p.second == a then [p.first] else [])
  }

  /** Slots holding the first five of ps in order, the rest free. */
  function Filled(ps: seq<int>): Slots {
    seq(SlotCount, i requires 0 <= i < SlotCount => if i < |ps| then ps[i] else NoAtom)
  }

  /** Partners of a are atom indices, never the empty-slot value. */
  lemma {:induction false} PartnersAreAtoms(pairs: seq<Pair>, n: int, a: int)
    requires PairsIn(pairs, n)
    ensures forall i :: 0 <= i < |Partners(pairs, a)| ==> 0 <= Partners(pairs, a)[i] < n
    decreases |pairs|
  {
    if |pairs| > 0 {
      PartnersAreAtoms(pairs[..|pairs| - 1], n, a);
      assert pairs[|pairs| - 1] == pairs[|pairs| - 1];
    }
  }

  /** Linking a real atom into filled slots appends it to the partner list;
      past five partners the slots stay as they are. */
  lemma FilledLink(ps: seq<int>, v: int)
    requires forall i :: 0 <= i < |ps| ==> ps[i] != NoAtom
    requires v != NoAtom
    ensures Link(Filled(ps), v) == Filled(ps + [v])
  {
    var s := Filled(ps);
    LinkFirstFree(s, v);
    if |ps| < SlotCount {
      assert s[|ps|] == NoAtom;
      assert FirstFree(s) == |ps|;
    } else {
      assert FirstFree(s) == |s|;
    }
  }

  /** One pair of the bond pass, on atoms whose slots hold the partners of
      the earlier pairs: atom a then holds its partners including this pair. */
  lemma LinkPairSlots(c: seq<Atom>, pairs: seq<Pair>, a: int)
    requires |pairs| > 0 && PairsIn(pairs, |c|) && 0 <= a < |c|
    requires var init, p := pairs[..|pairs| - 1], pairs[|pairs| - 1];
      && c[a] == Atom(0, Filled(Partners(init, a)))
      && c[p.first] == Atom(0, Filled(Partners(init, p.first)))
      && c[p.second] == Atom(0, Filled(Partners(init, p.second)))
    ensures LinkPair(c, pairs[|pairs| - 1])[a] == Atom(0, Filled(Partners(pairs, a)))
  {
    var init, p := pairs[..|pairs| - 1], pairs[|pairs| - 1];
    var n := |c|;
    assert PairsIn(init, n);
    PartnersAreAtoms(init, n, p.first);
    PartnersAreAtoms(init, n, p.second);
    var pf := Partners(init, p.first);
    FilledLink(pf, p.second);
    var s1 := c[p.first := c[p.first].(connections := Link(c[p.first].connections, p.second))];
    var ps := if p.first == p.second then pf + [p.second] else Partners(init, p.second);
    assert s1[p.second] == Atom(0, Filled(ps));
    FilledLink(ps, p.first);
  }

  /** Starting from fresh atoms, the bond pass leaves in each atom's slots
      its first five partners in pair order, the rest free, and leaves every
      atom unselected: a sixth bond and later ones of an atom are dropped. */
  lemma {:induction false} ConnectedSlots(n: nat, pairs: seq<Pair>, a: int)
    requires PairsIn(pairs, n) && 0 <= a < n
    ensures Connected(seq(n, _ => FreshAtom()), pairs)[a]
         == Atom(0, Filled(Partners(pairs, a)))
    decreases |pairs|
  {
    var atoms := seq(n, _ => FreshAtom());
    if |pairs| == 0 {
      assert Filled([]) == FreshAtom().connections;
    } else {
      var init := pairs[..|pairs| - 1];
      var p := pairs[|pairs| - 1];
      assert PairsIn(init, n);
      ConnectedSlots(n, init, a);
      ConnectedSlots(n, init, p.first);
      ConnectedSlots(n, init, p.second);
      LinkPairSlots(Connected(atoms, init), pairs, a);
    }
  }

  /** Reading of ConnectedSlots: an atom with at most five partners holds all
      of them, and every taken slot holds a partner. */
  lemma SlotsHoldPartners(n: nat, pairs: seq<Pair>, a: int)
    requires PairsIn(pairs, n) && 0 <= a < n
    ensures var s := Connected(seq(n, _ => FreshAtom()), pairs)[a].connections;
      && (|Partners(pairs, a)| <= SlotCount ==> forall i :: 0 <= i < |Partners(pairs, a)| ==> s[i] == Partners(pairs, a)[i])
      && (forall i :: 0 <= i < SlotCount && s[i] != NoAtom ==> s[i] in Partners(pairs, a))
  {
    ConnectedSlots(n, pairs, a);
  }

  // ---------------------------------------------------------------- the class

  class MoleculeModel {
    /** The atoms vector handed to the GPU. */
    var atoms: array<Atom>

    /** The atom-table part of the constructor: one fresh atom per decoded
        atom, then the bond pass over the decoder's pairs. */
    constructor (n: nat, pairs: seq<Pair>)
      requires PairsIn(pairs, n)
      ensures fresh(atoms)
      ensures atoms[..] == Connected(seq(n, _ => FreshAtom()), pairs)
    {
      atoms := new Atom[n](_ => FreshAtom());
      new;
      assert atoms[..] == seq(n, _ => FreshAtom());
      Connect(pairs);
    }

    /** `for (auto &p : pairs)`: link both ends of every pair. */
    method Connect(pairs: seq<Pair>)
      requires PairsIn(pairs, atoms.Length)
      modifies atoms
      ensures atoms[..] == Connected(old(atoms[..]), pairs)
    {
      ghost var a0 := atoms[..];
      for n := 0 to |pairs|
        invariant PairsIn(pairs[..n], |a0|)
        invariant atoms[..] == Connected(a0, pairs[..n])
      {
        var p := pairs[n];
        FillSlot(p.first, p.second);
        FillSlot(p.second, p.first);
        assert pairs[..n + 1][..n] == pairs[..n];
      }
      assert pairs[..|pairs|] == pairs;
    }

    /** The slot scan of one end: v goes into the first free slot of atom a. */
    method FillSlot(a: int, v: int)
      requires 0 <= a < atoms.Length
      modifies atoms
      ensures atoms[..] == old(atoms[..])[a := old(atoms[a]).(connections := Link(old(atoms[a].connections), v))]
    {
      ghost var s0 := atoms[a].connections;
      var slots := atoms[a].connections;
      var i := 0;
      while i < SlotCount
        invariant 0 <= i <= SlotCount
        invariant slots == s0 && forall j :: 0 <= j < i ==> s0[j] != NoAtom
      {
        if slots[i] == NoAtom {
          slots := slots[i := v];
          break;
        }
        i := i + 1;
      }
      LinkFirstFree(s0, v);
      atoms[a] := atoms[a].(connections := slots);
    }
  }
}

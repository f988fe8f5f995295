/** Symbol rebinding (fishhook.c): what a pass over the symbol pointers does, and the chain many calls leave. */
module Fishhook {
  import opened A64Encoding
  import opened Wrappers

  type Name = seq<bv8>

  const INDIRECT_SYMBOL_LOCAL: bv32 := 0x8000_0000
  const INDIRECT_SYMBOL_ABS: bv32 := 0x4000_0000

  // Where a caller wants the pointer it replaces.
  class Cell {
    var value: U64
  }

  datatype Rebinding = Rebinding(name: Name, replacement: U64, replaced: Cell?)

  // The rebindings of all calls, the newest call first.
  type Entries = seq<seq<Rebinding>>

  // A section of symbol pointers: where it starts, in pointers, and the symbol table index of each.
  datatype Section = Section(addr: nat, indices: seq<bv32>)

  // A symbol pointer: where it is, and the name rebindings know it by.
  datatype Slot = Slot(at: nat, name: Option<Name>)

  // No name for a local or absolute symbol, or one of fewer than two characters; the others lose their first one.
  function NameOf(symbols: bv32 -> Name, index: bv32): Option<Name> {
    if index == INDIRECT_SYMBOL_ABS || index == INDIRECT_SYMBOL_LOCAL then None
    else if index == INDIRECT_SYMBOL_LOCAL | INDIRECT_SYMBOL_ABS then None
    else if |symbols(index)| < 2 then None
    else Some(symbols(index)[1..])
  }

  function SlotAt(symbols: bv32 -> Name, s: Section, i: nat): Slot
    requires i < |s.indices|
  {
    Slot(s.addr + i, NameOf(symbols, s.indices[i]))
  }

  function SectionSlots(symbols: bv32 -> Name, s: Section): (r: seq<Slot>)
    ensures |r| == |s.indices|
  {
    seq(|s.indices|, i requires 0 <= i < |s.indices| => SlotAt(symbols, s, i))
  }

  function AllSlots(symbols: bv32 -> Name, sections: seq<Section>): seq<Slot> {
    if sections == [] then []
    else AllSlots(symbols, sections[..|sections| - 1]) + SectionSlots(symbols, sections[|sections| - 1])
  }

  // ----- what a pass does -----

  // Pointers in memory, and the cells.
  datatype State = State(words: seq<U64>, cells: map<Cell, U64>)

  // The first rebinding of a name in one call.
  function First(rebindings: seq<Rebinding>, name: Name): Option<Rebinding> {
    if rebindings == [] then None
    else if rebindings[0].name == name then Some(rebindings[0])
    else First(rebindings[1..], name)
  }

  // The newest call that has the name decides.
  function Match(entries: Entries, name: Name): Option<Rebinding> {
    if entries == [] then None
    else match First(entries[0], name)
      case Some(r) => Some(r)
      case None => Match(entries[1..], name)
  }

  function SlotMatch(entries: Entries, slot: Slot): Option<Rebinding> {
    match slot.name
    case None => None
    case Some(name) => Match(entries, name)
  }

  // One symbol pointer: replaced, and what it was saved if it is a change.
  function RebindSlot(entries: Entries, slot: Slot, st: State): (r: State)
    requires slot.at < |st.words|
    ensures |r.words| == |st.words|
  {
    match SlotMatch(entries, slot)
    case None => st
    case Some(r) =>
      State(st.words[slot.at := r.replacement],
            if r.replaced != null && st.words[slot.at] != r.replacement then st.cells[r.replaced := st.words[slot.at]]
            else st.cells)
  }

  predicate Within(slots: seq<Slot>, n: nat) {
    forall i :: 0 <= i < |slots| ==> slots[i].at < n
  }

  // All of them, in order.
  function Pass(entries: Entries, slots: seq<Slot>, st: State): (r: State)
    requires Within(slots, |st.words|)
    ensures |r.words| == |st.words|
  {
    if slots == [] then st
    else RebindSlot(entries, slots[|slots| - 1], Pass(entries, slots[..|slots| - 1], st))
  }

  // ----- what it amounts to -----

  // No two symbol pointers are the same word.
  ghost predicate Apart(slots: seq<Slot>) {
    forall i, j :: 0 <= i < j < |slots| ==> slots[i].at != slots[j].at
  }

  // What a slot holds after a pass over it.
  function Rebound(entries: Entries, slot: Slot, was: U64): U64 {
    match SlotMatch(entries, slot)
    case None => was
    case Some(r) => r.replacement
  }

  // The cell a slot that held `was` is saved to.
  function Saves(entries: Entries, slot: Slot, was: U64): Cell? {
    match SlotMatch(entries, slot)
    case None => null
    case Some(r) => if was != r.replacement then r.replaced else null
  }

  // Cell c has what some slot that is saved to it held, or what it had if there is none.
  ghost predicate CellAfter(entries: Entries, slots: seq<Slot>, st: State, c: Cell, after: map<Cell, U64>)
    requires Within(slots, |st.words|)
  {
    || (exists i :: 0 <= i < |slots| && Saves(entries, slots[i], st.words[slots[i].at]) == c
                    && c in after && after[c] == st.words[slots[i].at])
    || ((forall i :: 0 <= i < |slots| ==> Saves(entries, slots[i], st.words[slots[i].at]) != c)
        && (c in after <==> c in st.cells) && (c in after ==> after[c] == st.cells[c]))
  }

  /** A pass sets every slot with a rebinding, leaves every other word, and saves to cells only what slots held. */
  lemma {:induction false} PassEffect(entries: Entries, slots: seq<Slot>, st: State)
    requires Within(slots, |st.words|) && Apart(slots)
    ensures var r := Pass(entries, slots, st);
            && (forall i :: 0 <= i < |slots| ==>
                  r.words[slots[i].at] == Rebound(entries, slots[i], st.words[slots[i].at]))
            && (forall a :: 0 <= a < |st.words| && (forall i :: 0 <= i < |slots| ==> slots[i].at != a) ==>
                  r.words[a] == st.words[a])
            && (forall c: Cell :: CellAfter(entries, slots, st, c, r.cells))
    decreases |slots|
  {
    if slots != [] {
      var rest, slot := slots[..|slots| - 1], slots[|slots| - 1];
      hide RebindSlot, Rebound, Saves, SlotMatch;
      PassEffect(entries, rest, st);
      var mid := Pass(entries, rest, st);
      assert mid.words[slot.at] == st.words[slot.at];
      OneWord(entries, slot, mid);
      forall c: Cell ensures CellAfter(entries, slots, st, c, Pass(entries, slots, st).cells) {
        OneMoreSlot(entries, rest, slot, st, mid, c);
        assert slots == rest + [slot];
      }
    }
  }

  lemma OneWord(entries: Entries, slot: Slot, st: State)
    requires slot.at < |st.words|
    ensures RebindSlot(entries, slot, st).words == st.words[slot.at := Rebound(entries, slot, st.words[slot.at])]
  {
    assert st.words[slot.at := st.words[slot.at]] == st.words;
  }

  lemma OneMoreSlot(entries: Entries, rest: seq<Slot>, slot: Slot, st: State, mid: State, c: Cell)
    requires slot.at < |st.words| && Within(rest, |st.words|) && Within(rest + [slot], |st.words|)
    requires |mid.words| == |st.words|
    requires mid.words[slot.at] == st.words[slot.at] && CellAfter(entries, rest, st, c, mid.cells)
    ensures CellAfter(entries, rest + [slot], st, c, RebindSlot(entries, slot, mid).cells)
  {
    var slots := rest + [slot];
    assert slots[|rest|] == slot;
    assert forall i :: 0 <= i < |rest| ==> slots[i] == rest[i];
    if Saves(entries, slot, st.words[slot.at]) == c {
      assert Saves(entries, slots[|rest|], st.words[slots[|rest|].at]) == c;
    } else if i :| 0 <= i < |rest| && Saves(entries, rest[i], st.words[rest[i].at]) == c
                   && c in mid.cells && mid.cells[c] == st.words[rest[i].at] {
      assert Saves(entries, slots[i], st.words[slots[i].at]) == c;
    }
  }

  // A pass over slots that are as it would leave them does nothing.
  lemma {:induction false} PassStays(entries: Entries, slots: seq<Slot>, st: State)
    requires Within(slots, |st.words|)
    requires forall i :: 0 <= i < |slots| ==> Rebound(entries, slots[i], st.words[slots[i].at]) == st.words[slots[i].at]
    ensures Pass(entries, slots, st) == st
    decreases |slots|
  {
    if slots != [] {
      var slot := slots[|slots| - 1];
      PassStays(entries, slots[..|slots| - 1], st);
      assert Rebound(entries, slot, st.words[slot.at]) == st.words[slot.at];
      assert st.words[slot.at := st.words[slot.at]] == st.words;
    }
  }

  /** Running a pass again changes nothing, from any state. */
  lemma PassTwice(entries: Entries, slots: seq<Slot>, st: State)
    requires Within(slots, |st.words|) && Apart(slots)
    ensures var r := Pass(entries, slots, st); Pass(entries, slots, r) == r
  {
    PassEffect(entries, slots, st);
    PassStays(entries, slots, Pass(entries, slots, st));
  }

  // ----- many calls -----

  // After each call, the oldest first, a pass with all rebindings so far.
  function After(entries: Entries, slots: seq<Slot>, st: State): (r: State)
    requires Within(slots, |st.words|)
    ensures |r.words| == |st.words|
  {
    if entries == [] then st else Pass(entries, slots, After(entries[1..], slots, st))
  }

  // The rebindings of a name that took effect, the newest first.
  function Effective(entries: Entries, name: Name): seq<Rebinding> {
    if entries == [] then []
    else match First(entries[0], name)
      case Some(r) => [r] + Effective(entries[1..], name)
      case None => Effective(entries[1..], name)
  }

  // From `top`, each replacement leads through its cell to the one before it, and the oldest to the original.
  ghost predicate Chained(eff: seq<Rebinding>, cells: map<Cell, U64>, top: U64, original: U64) {
    if eff == [] then top == original
    else
      && top == eff[0].replacement && eff[0].replaced != null && eff[0].replaced in cells
      && Chained(eff[1..], cells, cells[eff[0].replaced], original)
  }

  // Every replacement differs from what it replaces, and is asked to be saved.
  predicate Steps(eff: seq<Rebinding>, original: U64) {
    eff == [] ||
    (eff[0].replaced != null && eff[0].replacement != Top(eff[1..], original) && Steps(eff[1..], original))
  }

  function Top(eff: seq<Rebinding>, original: U64): U64 {
    if eff == [] then original else eff[0].replacement
  }

  // The k-th rebinding of `name` that took effect and the n-th of `other` are saved to one cell.
  ghost predicate ShareCell(entries: Entries, name: Name, k: nat, other: Name, n: nat) {
    && k < |Effective(entries, name)| && n < |Effective(entries, other)|
    && Effective(entries, name)[k].replaced != null
    && Effective(entries, name)[k].replaced == Effective(entries, other)[n].replaced
  }

  // The rebindings of `name` that took effect share their cells with no other.
  ghost predicate OwnCells(entries: Entries, name: Name) {
    forall k: nat, other: Name, n: nat :: ShareCell(entries, name, k, other, n) ==> other == name && n == k
  }

  lemma OnlyShare(entries: Entries, name: Name, k: nat, other: Name, n: nat)
    requires OwnCells(entries, name) && ShareCell(entries, name, k, other, n)
    ensures other == name && n == k
  {
  }

  lemma {:induction false} MatchIsNewest(entries: Entries, name: Name)
    ensures Match(entries, name) ==
              if Effective(entries, name) == [] then None else Some(Effective(entries, name)[0])
  {
    if entries != [] {
      MatchIsNewest(entries[1..], name);
    }
  }

  // The rebinding a name is looked up to: the first of the name in the newest call that has one.
  predicate Newest(entries: Entries, name: Name, k: nat, j: nat) {
    && k < |entries| && j < |entries[k]| && entries[k][j].name == name
    && (forall b :: 0 <= b < j ==> entries[k][b].name != name)
    && (forall c, b :: 0 <= c < k && 0 <= b < |entries[c]| ==> entries[c][b].name != name)
  }

  // No call has the name.
  predicate Unknown(entries: Entries, name: Name) {
    forall c, b :: 0 <= c < |entries| && 0 <= b < |entries[c]| ==> entries[c][b].name != name
  }

  lemma {:induction false} FirstFound(rebindings: seq<Rebinding>, name: Name)
    ensures match First(rebindings, name)
            case None => forall b :: 0 <= b < |rebindings| ==> rebindings[b].name != name
            case Some(r) => exists j :: 0 <= j < |rebindings| && rebindings[j] == r && r.name == name
                                        && forall b :: 0 <= b < j ==> rebindings[b].name != name
  {
    if rebindings != [] {
      var rest := rebindings[1..];
      FirstFound(rest, name);
      if rebindings[0].name == name {
        assert rebindings[0] == First(rebindings, name).value;
      } else if First(rest, name).Some? {
        var j :| 0 <= j < |rest| && rest[j] == First(rest, name).value && rest[j].name == name
                 && forall b :: 0 <= b < j ==> rest[b].name != name;
        assert rebindings[j + 1] == rest[j];
        assert forall b :: 0 < b < j + 1 ==> rebindings[b] == rest[b - 1];
      }
    }
  }

  /** A rebinding of the name anywhere in any call is found, and the one found is the first of the newest call. */
  lemma {:induction false} MatchFound(entries: Entries, name: Name)
    ensures match Match(entries, name)
            case None => Unknown(entries, name)
            case Some(r) => exists k: nat, j: nat :: Newest(entries, name, k, j) && entries[k][j] == r
  {
    if entries != [] {
      FirstFound(entries[0], name);
      var rest := entries[1..];
      if First(entries[0], name).Some? {
        var j :| 0 <= j < |entries[0]| && entries[0][j] == First(entries[0], name).value
                 && forall b :: 0 <= b < j ==> entries[0][b].name != name;
        assert Newest(entries, name, 0, j);
      } else {
        MatchFound(rest, name);
        assert forall c :: 0 < c < |entries| ==> entries[c] == rest[c - 1];
        if Match(rest, name).Some? {
          var k: nat, j: nat :| Newest(rest, name, k, j) && rest[k][j] == Match(rest, name).value;
          assert entries[k + 1] == rest[k];
          assert Newest(entries, name, k + 1, j);
        }
      }
    }
  }

  lemma NewestUnique(entries: Entries, name: Name, k: nat, j: nat, k': nat, j': nat)
    requires Newest(entries, name, k, j) && Newest(entries, name, k', j')
    ensures k == k' && j == j'
  {
  }

  lemma {:induction false} FirstPlace(rebindings: seq<Rebinding>, name: Name) returns (a: nat)
    requires First(rebindings, name).Some?
    ensures a < |rebindings| && rebindings[a] == First(rebindings, name).value && rebindings[a].name == name
  {
    if rebindings[0].name == name {
      a := 0;
    } else {
      a := FirstPlace(rebindings[1..], name);
      a := a + 1;
    }
  }

  // Where an effective rebinding comes from.
  lemma {:induction false} EffectivePlace(entries: Entries, name: Name, k: nat) returns (i: nat, a: nat)
    requires k < |Effective(entries, name)|
    ensures i < |entries| && a < |entries[i]| && entries[i][a] == Effective(entries, name)[k]
    ensures entries[i][a].name == name
    decreases |entries|
  {
    match First(entries[0], name) {
      case Some(r) =>
        if k == 0 {
          i := 0;
          a := FirstPlace(entries[0], name);
        } else {
          i, a := EffectivePlace(entries[1..], name, k - 1);
          i := i + 1;
        }
      case None =>
        i, a := EffectivePlace(entries[1..], name, k);
        i := i + 1;
    }
  }

  // ----- the chain -----

  // Every slot of a name starts as `original` says.
  ghost predicate Originally(slots: seq<Slot>, st: State, original: Name -> U64)
    requires Within(slots, |st.words|)
  {
    forall i :: 0 <= i < |slots| && slots[i].name.Some? ==> st.words[slots[i].at] == original(slots[i].name.value)
  }

  // Every slot holds the newest replacement of its name.
  ghost predicate AllTop(entries: Entries, slots: seq<Slot>, st: State, original: Name -> U64)
    requires Within(slots, |st.words|)
  {
    forall i :: 0 <= i < |slots| && slots[i].name.Some? ==>
      st.words[slots[i].at] == Top(Effective(entries, slots[i].name.value), original(slots[i].name.value))
  }

  // Only cells of rebindings that took effect have been saved to.
  ghost predicate SavedFrom(entries: Entries, cells: map<Cell, U64>) {
    forall c :: c in cells ==> SavedBy(entries, c)
  }

  ghost predicate SavedBy(entries: Entries, c: Cell) {
    exists name, k: nat :: k < |Effective(entries, name)| && Effective(entries, name)[k].replaced == c
  }

  // The saved pointers of slot i lead back to the original.
  ghost predicate SlotChained(entries: Entries, slots: seq<Slot>, st: State, original: Name -> U64, i: nat)
    requires Within(slots, |st.words|) && i < |slots| && slots[i].name.Some?
  {
    var name := slots[i].name.value;
    Chained(Effective(entries, name), st.cells, st.words[slots[i].at], original(name))
  }

  lemma {:induction false} ChainedFrame(eff: seq<Rebinding>, cells: map<Cell, U64>, cells': map<Cell, U64>, top: U64,
                                        original: U64)
    requires forall k :: 0 <= k < |eff| && eff[k].replaced != null ==>
               (eff[k].replaced in cells <==> eff[k].replaced in cells')
               && (eff[k].replaced in cells ==> cells'[eff[k].replaced] == cells[eff[k].replaced])
    ensures Chained(eff, cells, top, original) <==> Chained(eff, cells', top, original)
  {
    if eff != [] && eff[0].replaced != null && eff[0].replaced in cells {
      ChainedFrame(eff[1..], cells, cells', cells[eff[0].replaced], original);
    }
  }

  // Rebindings of older calls that took effect still do, one place on if the newest call has the name.
  function Shift(entries: Entries, name: Name): nat
    requires entries != []
  {
    if First(entries[0], name).Some? then 1 else 0
  }

  lemma Shifted(entries: Entries, name: Name, k: nat)
    requires entries != [] && k < |Effective(entries[1..], name)|
    ensures var d := Shift(entries, name);
            k + d < |Effective(entries, name)| && Effective(entries, name)[k + d] == Effective(entries[1..], name)[k]
  {
  }

  lemma FewerCalls(entries: Entries, name: Name)
    requires entries != [] && OwnCells(entries, name)
    ensures OwnCells(entries[1..], name)
  {
    forall k: nat, other: Name, n: nat | ShareCell(entries[1..], name, k, other, n) ensures other == name && n == k {
      Shifted(entries, name, k);
      Shifted(entries, other, n);
      assert ShareCell(entries, name, k + Shift(entries, name), other, n + Shift(entries, other));
    }
  }

  // A slot is saved to the cell of a rebinding of `name` only if that is its name and the rebinding the newest.
  lemma SavesOwn(entries: Entries, name: Name, k: nat, slot: Slot, was: U64)
    requires OwnCells(entries, name) && k < |Effective(entries, name)| && Effective(entries, name)[k].replaced != null
    requires Saves(entries, slot, was) == Effective(entries, name)[k].replaced
    ensures k == 0 && slot.name == Some(name) && was != Effective(entries, name)[0].replacement
  {
    MatchIsNewest(entries, slot.name.value);
    assert ShareCell(entries, name, k, slot.name.value, 0);
  }

  // A cell of an older call is not saved to: its slots already hold their replacement, or a newer one's.
  lemma OlderCellKept(entries: Entries, slots: seq<Slot>, st: State, original: Name -> U64, name: Name, k: nat)
    requires entries != [] && Within(slots, |st.words|) && Apart(slots) && OwnCells(entries, name)
    requires AllTop(entries[1..], slots, st, original)
    requires k < |Effective(entries[1..], name)| && Effective(entries[1..], name)[k].replaced != null
    ensures forall i :: 0 <= i < |slots| ==>
              Saves(entries, slots[i], st.words[slots[i].at]) != Effective(entries[1..], name)[k].replaced
  {
    Shifted(entries, name, k);
    forall i | 0 <= i < |slots|
      ensures Saves(entries, slots[i], st.words[slots[i].at]) != Effective(entries[1..], name)[k].replaced
    {
      if Saves(entries, slots[i], st.words[slots[i].at]) == Effective(entries[1..], name)[k].replaced {
        SavesOwn(entries, name, k + Shift(entries, name), slots[i], st.words[slots[i].at]);
      }
    }
  }

  // The cell of this call's rebinding gets what the slots of its name held, if that is a change.
  lemma SavedByName(entries: Entries, slots: seq<Slot>, st: State, original: Name -> U64, i: nat)
    requires entries != [] && Within(slots, |st.words|) && Apart(slots)
    requires AllTop(entries[1..], slots, st, original) && SavedFrom(entries[1..], st.cells)
    requires i < |slots| && slots[i].name.Some? && OwnCells(entries, slots[i].name.value)
    requires var r := First(entries[0], slots[i].name.value); r.Some? && r.value.replaced != null
    ensures var r := First(entries[0], slots[i].name.value).value;
            var cells := Pass(entries, slots, st).cells;
            && (r.replaced in cells <==> r.replacement != st.words[slots[i].at])
            && (r.replaced in cells ==> cells[r.replaced] == st.words[slots[i].at])
  {
    var name := slots[i].name.value;
    var r := First(entries[0], name).value;
    assert Effective(entries, name)[0] == r;
    MatchIsNewest(entries, name);
    PassEffect(entries, slots, st);
    assert r.replacement != st.words[slots[i].at] ==> Saves(entries, slots[i], st.words[slots[i].at]) == r.replaced;
    assert CellAfter(entries, slots, st, r.replaced, Pass(entries, slots, st).cells);
    forall j | 0 <= j < |slots| && Saves(entries, slots[j], st.words[slots[j].at]) == r.replaced
      ensures st.words[slots[j].at] == st.words[slots[i].at] != r.replacement
    {
      SavesOwn(entries, name, 0, slots[j], st.words[slots[j].at]);
    }
    NotSavedBefore(entries, st.cells, name);
  }

  lemma NotSavedBefore(entries: Entries, cells: map<Cell, U64>, name: Name)
    requires entries != [] && OwnCells(entries, name) && SavedFrom(entries[1..], cells)
    requires var r := First(entries[0], name); r.Some? && r.value.replaced != null
    ensures First(entries[0], name).value.replaced !in cells
  {
    hide OwnCells;
    var c: Cell := First(entries[0], name).value.replaced;
    if c in cells {
      assert SavedBy(entries[1..], c);
      var other, n: nat :| n < |Effective(entries[1..], other)| && Effective(entries[1..], other)[n].replaced == c;
      Shifted(entries, other, n);
      OnlyShare(entries, name, 0, other, n + Shift(entries, other));
    }
  }

  // One call: the slot's chain is complete after it exactly if it was, and the call changes the slot or does not name
  // it.
  lemma SlotChains(entries: Entries, slots: seq<Slot>, st: State, original: Name -> U64, i: nat)
    requires entries != [] && Within(slots, |st.words|) && Apart(slots)
    requires AllTop(entries[1..], slots, st, original) && SavedFrom(entries[1..], st.cells)
    requires i < |slots| && slots[i].name.Some? && OwnCells(entries, slots[i].name.value)
    requires SlotChained(entries[1..], slots, st, original, i)
        <==> Steps(Effective(entries[1..], slots[i].name.value), original(slots[i].name.value))
    ensures SlotChained(entries, slots, Pass(entries, slots, st), original, i)
       <==> Steps(Effective(entries, slots[i].name.value), original(slots[i].name.value))
  {
    var r, name := Pass(entries, slots, st), slots[i].name.value;
    var eff := Effective(entries[1..], name);
    PassEffect(entries, slots, st);
    forall k | 0 <= k < |eff| && eff[k].replaced != null
      ensures (eff[k].replaced in st.cells <==> eff[k].replaced in r.cells)
              && (eff[k].replaced in st.cells ==> r.cells[eff[k].replaced] == st.cells[eff[k].replaced])
    {
      OlderCellKept(entries, slots, st, original, name, k);
      assert CellAfter(entries, slots, st, eff[k].replaced, r.cells);
    }
    ChainedFrame(eff, st.cells, r.cells, st.words[slots[i].at], original(name));
    MatchIsNewest(entries, name);
    if First(entries[0], name).Some? && First(entries[0], name).value.replaced != null {
      SavedByName(entries, slots, st, original, i);
    }
  }

  // What each call keeps for the next.
  lemma CallKeeps(entries: Entries, slots: seq<Slot>, st: State, original: Name -> U64)
    requires entries != [] && Within(slots, |st.words|) && Apart(slots)
    requires AllTop(entries[1..], slots, st, original) && SavedFrom(entries[1..], st.cells)
    ensures AllTop(entries, slots, Pass(entries, slots, st), original)
    ensures SavedFrom(entries, Pass(entries, slots, st).cells)
  {
    var r := Pass(entries, slots, st);
    PassEffect(entries, slots, st);
    forall i | 0 <= i < |slots| && slots[i].name.Some?
      ensures r.words[slots[i].at] == Top(Effective(entries, slots[i].name.value), original(slots[i].name.value))
    {
      MatchIsNewest(entries, slots[i].name.value);
      MatchIsNewest(entries[1..], slots[i].name.value);
    }
    PassSaves(entries, slots, st);
  }

  lemma {:induction false} PassSaves(entries: Entries, slots: seq<Slot>, st: State)
    requires entries != [] && Within(slots, |st.words|) && SavedFrom(entries[1..], st.cells)
    ensures SavedFrom(entries, Pass(entries, slots, st).cells)
    decreases |slots|
  {
    if slots == [] {
      forall c | c in st.cells ensures SavedBy(entries, c) {
        assert SavedBy(entries[1..], c);
        var name, k: nat :| k < |Effective(entries[1..], name)| && Effective(entries[1..], name)[k].replaced == c;
        Shifted(entries, name, k);
      }
    } else {
      var slot := slots[|slots| - 1];
      PassSaves(entries, slots[..|slots| - 1], st);
      if SlotMatch(entries, slot).Some? {
        MatchIsNewest(entries, slot.name.value);
        assert Effective(entries, slot.name.value)[0] == SlotMatch(entries, slot).value;
      }
    }
  }

  lemma {:induction false} AfterKeeps(entries: Entries, slots: seq<Slot>, st: State, original: Name -> U64)
    requires Within(slots, |st.words|) && Apart(slots) && Originally(slots, st, original) && st.cells == map[]
    ensures AllTop(entries, slots, After(entries, slots, st), original)
    ensures SavedFrom(entries, After(entries, slots, st).cells)
    decreases |entries|
  {
    if entries != [] {
      AfterKeeps(entries[1..], slots, st, original);
      CallKeeps(entries, slots, After(entries[1..], slots, st), original);
    }
  }

  /**
   * After any number of calls each slot holds the newest replacement of its name. The saved pointers lead from there
   * through every replacement, newest to oldest, to what the slot held at first, exactly if each replacement is asked
   * to be saved and differed from what it replaced.
   */
  lemma {:induction false} RebindingsChain(entries: Entries, slots: seq<Slot>, st: State, original: Name -> U64, i: nat)
    requires Within(slots, |st.words|) && Apart(slots)
    requires Originally(slots, st, original) && st.cells == map[] && i < |slots| && slots[i].name.Some?
    requires OwnCells(entries, slots[i].name.value)
    ensures var (name, r) := (slots[i].name.value, After(entries, slots, st));
            && r.words[slots[i].at] == Top(Effective(entries, name), original(name))
            && (Chained(Effective(entries, name), r.cells, r.words[slots[i].at], original(name))
                <==> Steps(Effective(entries, name), original(name)))
    decreases |entries|
  {
    AfterKeeps(entries, slots, st, original);
    if entries != [] {
      FewerCalls(entries, slots[i].name.value);
      AfterKeeps(entries[1..], slots, st, original);
      RebindingsChain(entries[1..], slots, st, original, i);
      SlotChains(entries, slots, After(entries[1..], slots, st), original, i);
    }
  }

  /** No call ever changes a slot without a rebinding, or any other word. */
  lemma {:induction false} UnmatchedKept(entries: Entries, slots: seq<Slot>, st: State, a: nat)
    requires Within(slots, |st.words|) && Apart(slots) && a < |st.words|
    requires forall i :: 0 <= i < |slots| && slots[i].at == a ==> SlotMatch(entries, slots[i]) == None
    ensures After(entries, slots, st).words[a] == st.words[a]
    decreases |entries|
  {
    if entries != [] {
      UnmatchedKept(entries[1..], slots, st, a);
      PassEffect(entries, slots, After(entries[1..], slots, st));
    }
  }

  // ----- images loaded later -----

  // Some slot has the name.
  ghost predicate Named(slots: seq<Slot>, name: Name) {
    exists i :: 0 <= i < |slots| && slots[i].name == Some(name)
  }

  // The newest cell of a name after a pass over slots that are all at their original.
  lemma LateCell(entries: Entries, slots: seq<Slot>, st: State, original: Name -> U64, name: Name)
    requires Within(slots, |st.words|) && Apart(slots) && OwnCells(entries, name) && Originally(slots, st, original)
    requires var eff := Effective(entries, name); eff != [] && eff[0].replaced != null && eff[0].replaced in st.cells
    ensures var (eff, cells) := (Effective(entries, name), Pass(entries, slots, st).cells);
            && eff[0].replaced in cells
            && cells[eff[0].replaced] == if Named(slots, name) && original(name) != eff[0].replacement
                                         then original(name) else st.cells[eff[0].replaced]
  {
    var eff, c := Effective(entries, name), Effective(entries, name)[0].replaced;
    PassEffect(entries, slots, st);
    assert CellAfter(entries, slots, st, c, Pass(entries, slots, st).cells);
    MatchIsNewest(entries, name);
    forall i | 0 <= i < |slots| && Saves(entries, slots[i], st.words[slots[i].at]) == c
      ensures slots[i].name == Some(name) && original(name) != eff[0].replacement
    {
      SavesOwn(entries, name, 0, slots[i], st.words[slots[i].at]);
    }
    if Named(slots, name) && original(name) != eff[0].replacement {
      var i :| 0 <= i < |slots| && slots[i].name == Some(name);
      assert Saves(entries, slots[i], st.words[slots[i].at]) == c;
    }
  }

  // The older ones are left alone.
  lemma LateOlderCells(entries: Entries, slots: seq<Slot>, st: State, name: Name, k: nat)
    requires Within(slots, |st.words|) && Apart(slots) && OwnCells(entries, name)
    requires 0 < k < |Effective(entries, name)| && Effective(entries, name)[k].replaced != null
    ensures var (c, cells) := (Effective(entries, name)[k].replaced, Pass(entries, slots, st).cells);
            (c in cells <==> c in st.cells) && (c in cells ==> cells[c] == st.cells[c])
  {
    var c := Effective(entries, name)[k].replaced;
    PassEffect(entries, slots, st);
    assert CellAfter(entries, slots, st, c, Pass(entries, slots, st).cells);
    forall i | 0 <= i < |slots| ensures Saves(entries, slots[i], st.words[slots[i].at]) != c {
      if Saves(entries, slots[i], st.words[slots[i].at]) == c {
        SavesOwn(entries, name, k, slots[i], st.words[slots[i].at]);
      }
    }
  }

  lemma ChainTop(eff: seq<Rebinding>, cells: map<Cell, U64>, top: U64, original: U64)
    requires Chained(eff, cells, top, original)
    ensures top == Top(eff, original)
  {
  }

  /**
   * An image loaded later, its slots still at their originals, leaves the complete chain of a name complete exactly if
   * it has no slot of that name, or the newest replacement is the original, or what the newest replaced is: a chain of
   * one survives, a longer one in general loses all but its newest replacement.
   */
  lemma LateImage(entries: Entries, slots: seq<Slot>, st: State, original: Name -> U64, name: Name)
    requires Within(slots, |st.words|) && Apart(slots) && OwnCells(entries, name) && Originally(slots, st, original)
    requires var eff := Effective(entries, name);
             eff != [] && Chained(eff, st.cells, eff[0].replacement, original(name))
    ensures var eff := Effective(entries, name);
            Chained(eff, Pass(entries, slots, st).cells, eff[0].replacement, original(name))
            <==> !Named(slots, name) || original(name) == eff[0].replacement
                 || Top(eff[1..], original(name)) == original(name)
  {
    var eff, cells := Effective(entries, name), Pass(entries, slots, st).cells;
    var c := eff[0].replaced;
    LateCell(entries, slots, st, original, name);
    forall k | 0 <= k < |eff[1..]| && eff[1..][k].replaced != null
      ensures (eff[1..][k].replaced in st.cells <==> eff[1..][k].replaced in cells)
              && (eff[1..][k].replaced in st.cells ==> cells[eff[1..][k].replaced] == st.cells[eff[1..][k].replaced])
    {
      LateOlderCells(entries, slots, st, name, k + 1);
    }
    ChainTop(eff[1..], st.cells, st.cells[c], original(name));
    ChainedFrame(eff[1..], st.cells, cells, st.cells[c], original(name));
    if Chained(eff[1..], cells, cells[c], original(name)) {
      ChainTop(eff[1..], cells, cells[c], original(name));
    }
  }

  /** Two rebindings of a name, then an image that binds it: the first replacement is no longer reached. */
  lemma LateImageCuts(name: Name, first: Cell, second: Cell)
    requires first != second
    ensures var (older, newer) := (Rebinding(name, 2, first), Rebinding(name, 3, second));
            var (early, late) := (Slot(0, Some(name)), Slot(1, Some(name)));
            var st := After([[newer], [older]], [early], State([1, 1], map[]));
            && Chained([newer, older], st.cells, 3, 1)
            && !Chained([newer, older], Pass([[newer], [older]], [late], st).cells, 3, 1)
  {
    var older, newer := Rebinding(name, 2, first), Rebinding(name, 3, second);
    var early, late := Slot(0, Some(name)), Slot(1, Some(name));
    var entries, before := [[newer], [older]], [[older]];
    assert entries[1..] == before && before[1..] == [];
    assert [newer, older][1..] == [older] && [older][1..] == [];
    assert First([newer], name) == Some(newer) && First([older], name) == Some(older);
    OneSlotPass(before, early, State([1, 1], map[]));
    var st1 := Pass(before, [early], State([1, 1], map[]));
    assert st1.words == [2, 1] && st1.cells == map[first := 1];
    OneSlotPass(entries, early, st1);
    var st := Pass(entries, [early], st1);
    assert st.words == [3, 1] && st.cells == map[first := 1, second := 2];
    assert After(before, [early], State([1, 1], map[])) == st1;
    OneSlotPass(entries, late, st);
  }

  lemma OneSlotPass(entries: Entries, slot: Slot, st: State)
    requires slot.at < |st.words|
    ensures Pass(entries, [slot], st) == RebindSlot(entries, slot, st)
  {
    assert [slot][..0] == [];
  }

  // ----- the code -----

  lemma {:induction false} PassAdds(entries: Entries, a: seq<Slot>, b: seq<Slot>, st: State)
    requires Within(a + b, |st.words|) && Within(a, |st.words|) && Within(b, |st.words|)
    ensures Pass(entries, a + b, st) == Pass(entries, b, Pass(entries, a, st))
    decreases |b|
  {
    if b == [] {
      assert a + b == a;
    } else {
      assert (a + b)[..|a + b| - 1] == a + b[..|b| - 1];
      PassAdds(entries, a, b[..|b| - 1], st);
    }
  }

  // No two sections overlap.
  predicate SectionsApart(sections: seq<Section>) {
    forall s, t :: 0 <= s < t < |sections| ==>
      || sections[s].addr + |sections[s].indices| <= sections[t].addr
      || sections[t].addr + |sections[t].indices| <= sections[s].addr
  }

  lemma {:induction false} SlotPlace(symbols: bv32 -> Name, sections: seq<Section>, s: nat, i: nat) returns (p: nat)
    requires s < |sections| && i < |sections[s].indices|
    ensures p < |AllSlots(symbols, sections)|
    ensures AllSlots(symbols, sections)[p] == SlotAt(symbols, sections[s], i)
    decreases |sections|
  {
    var front := sections[..|sections| - 1];
    if s == |sections| - 1 {
      p := |AllSlots(symbols, front)| + i;
    } else {
      p := SlotPlace(symbols, front, s, i);
    }
  }

  lemma {:induction false} SlotSource(symbols: bv32 -> Name, sections: seq<Section>, p: nat) returns (s: nat, i: nat)
    requires p < |AllSlots(symbols, sections)|
    ensures s < |sections| && i < |sections[s].indices|
    ensures AllSlots(symbols, sections)[p] == SlotAt(symbols, sections[s], i)
    decreases |sections|
  {
    var front := sections[..|sections| - 1];
    if p < |AllSlots(symbols, front)| {
      s, i := SlotSource(symbols, front, p);
    } else {
      s, i := |sections| - 1, p - |AllSlots(symbols, front)|;
    }
  }

  lemma {:induction false} SlotsApart(symbols: bv32 -> Name, sections: seq<Section>)
    requires SectionsApart(sections)
    ensures Apart(AllSlots(symbols, sections))
    decreases |sections|
  {
    if sections != [] {
      var front, slots := sections[..|sections| - 1], AllSlots(symbols, sections);
      SlotsApart(symbols, front);
      var n := |AllSlots(symbols, front)|;
      forall p, q | 0 <= p < q < |slots| ensures slots[p].at != slots[q].at {
        if p < n <= q {
          var s, i := SlotSource(symbols, front, p);
          assert front[s] == sections[s];
        }
      }
    }
  }

  // What a symbol pointer holds after a pass, by its place in its section and the symbol there.
  lemma WordAfter(entries: Entries, symbols: bv32 -> Name, sections: seq<Section>, st: State, s: nat, i: nat)
    requires Within(AllSlots(symbols, sections), |st.words|) && SectionsApart(sections)
    requires s < |sections| && i < |sections[s].indices|
    ensures sections[s].addr + i < |st.words|
    ensures var a, index := sections[s].addr + i, sections[s].indices[i];
            var symbol, r := symbols(index), Pass(entries, AllSlots(symbols, sections), st);
            if index in {0x4000_0000, 0x8000_0000, 0xc000_0000} || |symbol| < 2 || Unknown(entries, symbol[1..])
            then r.words[a] == st.words[a]
            else exists k: nat, j: nat :: Newest(entries, symbol[1..], k, j) && r.words[a] == entries[k][j].replacement
  {
    hide Newest, Unknown;
    var slots, symbol := AllSlots(symbols, sections), symbols(sections[s].indices[i]);
    var p := SlotPlace(symbols, sections, s, i);
    SlotsApart(symbols, sections);
    PassEffect(entries, slots, st);
    assert 0x8000_0000 | 0x4000_0000 == 0xc000_0000 as bv32;
    if |symbol| >= 2 {
      MatchFound(entries, symbol[1..]);
      UnknownHasNone(entries, symbol[1..]);
    }
  }

  lemma SectionWordAfter(entries: Entries, symbols: bv32 -> Name, section: Section, st: State, i: nat)
    requires section.addr + |section.indices| <= |st.words| && i < |section.indices|
    ensures Within(SectionSlots(symbols, section), |st.words|)
    ensures var a, index := section.addr + i, section.indices[i];
            var symbol, r := symbols(index), Pass(entries, SectionSlots(symbols, section), st);
            if index in {0x4000_0000, 0x8000_0000, 0xc000_0000} || |symbol| < 2 || Unknown(entries, symbol[1..])
            then r.words[a] == st.words[a]
            else exists k: nat, j: nat :: Newest(entries, symbol[1..], k, j) && r.words[a] == entries[k][j].replacement
  {
    hide Newest, Unknown, Pass;
    assert [section][..0] == [];
    assert AllSlots(symbols, [section]) == SectionSlots(symbols, section);
    WordAfter(entries, symbols, [section], st, 0, i);
  }

  // A word that is in no section.
  lemma WordOutside(entries: Entries, symbols: bv32 -> Name, sections: seq<Section>, st: State, a: nat)
    requires Within(AllSlots(symbols, sections), |st.words|) && SectionsApart(sections) && a < |st.words|
    requires forall s :: 0 <= s < |sections| ==> !(sections[s].addr <= a < sections[s].addr + |sections[s].indices|)
    ensures Pass(entries, AllSlots(symbols, sections), st).words[a] == st.words[a]
  {
    var slots := AllSlots(symbols, sections);
    SlotsApart(symbols, sections);
    PassEffect(entries, slots, st);
    forall p | 0 <= p < |slots| ensures slots[p].at != a {
      var s, i := SlotSource(symbols, sections, p);
    }
  }

  lemma UnknownHasNone(entries: Entries, name: Name)
    ensures Unknown(entries, name) ==> forall k: nat, j: nat :: !Newest(entries, name, k, j)
  {
  }

  function CellsOf(entries: Entries): set<Cell> {
    set i, a | 0 <= i < |entries| && 0 <= a < |entries[i]| && entries[i][a].replaced != null :: entries[i][a].replaced
  }

  // The images' sections, over one memory of pointers; what is loaded does not change.
  class Process {
    const words: array<U64>
    const sections: seq<Section>
    const symbols: bv32 -> Name
    var entries: Entries
    // The cells saved to so far.
    ghost var saved: set<Cell>

    ghost predicate Valid() {
      forall s :: 0 <= s < |sections| ==> sections[s].addr + |sections[s].indices| <= words.Length
    }

    ghost function Now(): State
      reads this`saved, words, saved
    {
      State.State(words[..], map c | c in saved :: c.value)
    }

    constructor (words: array<U64>, sections: seq<Section>, symbols: bv32 -> Name)
      requires forall s :: 0 <= s < |sections| ==> sections[s].addr + |sections[s].indices| <= words.Length
      ensures Valid() && entries == [] && Now() == State.State(words[..], map[])
      ensures this.words == words && this.sections == sections && this.symbols == symbols
    {
      this.words, this.sections, this.symbols := words, sections, symbols;
      entries, saved := [], {};
    }

    method FindMatch(name: Name) returns (r: Option<Rebinding>)
      ensures r == Match(entries, name)
      ensures r.None? ==> Unknown(entries, name)
      ensures r.Some? ==> exists k: nat, j: nat :: Newest(entries, name, k, j) && entries[k][j] == r.value
    {
      MatchFound(entries, name);
      var cur := 0;
      while cur < |entries|
        invariant cur <= |entries| && Match(entries, name) == Match(entries[cur..], name)
      {
        var j := 0;
        var rebindings := entries[cur];
        while j < |rebindings|
          invariant j <= |rebindings| && First(rebindings, name) == First(rebindings[j..], name)
        {
          if rebindings[j].name == name {
            return Some(rebindings[j]);
          }
          assert rebindings[j..][1..] == rebindings[j + 1..];
          j := j + 1;
        }
        assert entries[cur..][1..] == entries[cur + 1..];
        cur := cur + 1;
      }
      return None;
    }

    // One symbol pointer.
    method Rebind(slot: Slot)
      requires slot.at < words.Length
      modifies words, this`saved, CellsOf(entries)
      ensures Now() == RebindSlot(entries, slot, old(Now()))
    {
      if slot.name.Some? {
        var r := FindMatch(slot.name.value);
        if r.Some? {
          if r.value.replaced != null && words[slot.at] != r.value.replacement {
            MatchCell(entries, slot.name.value);
            var cell: Cell := r.value.replaced;
            cell.value := words[slot.at];
            saved := saved + {cell};
          }
          words[slot.at] := r.value.replacement;
        }
      }
    }

    method PerformRebindingWithSection(section: Section)
      requires section.addr + |section.indices| <= words.Length
      modifies words, this`saved, CellsOf(entries)
      ensures Now() == Pass(entries, SectionSlots(symbols, section), old(Now()))
      ensures forall i :: 0 <= i < |section.indices| ==>
        var a, index := section.addr + i, section.indices[i];
        var symbol := symbols(index);
        if index in {0x4000_0000, 0x8000_0000, 0xc000_0000} || |symbol| < 2 || Unknown(entries, symbol[1..])
        then words[a] == old(words[a])
        else exists k: nat, j: nat :: Newest(entries, symbol[1..], k, j) && words[a] == entries[k][j].replacement
    {
      PassOverSection(section);
      hide Pass, SectionSlots, Newest, Unknown;
      ghost var before, after := old(Now()), Now();
      assert forall a :: 0 <= a < words.Length ==> words[a] == after.words[a] && old(words[a]) == before.words[a];
      forall i | 0 <= i < |section.indices| {
        SectionWordAfter(entries, symbols, section, before, i);
      }
    }

    method PassOverSection(section: Section)
      requires section.addr + |section.indices| <= words.Length
      modifies words, this`saved, CellsOf(entries)
      ensures Now() == Pass(entries, SectionSlots(symbols, section), old(Now()))
    {
      ghost var slots := SectionSlots(symbols, section);
      for i := 0 to |section.indices|
        invariant Now() == Pass(entries, slots[..i], old(Now()))
      {
        Rebind(SlotAt(symbols, section, i));
        assert slots[..i + 1][..i] == slots[..i] && slots[..i + 1][i] == SlotAt(symbols, section, i);
      }
      assert slots[..|slots|] == slots;
    }

    /** rebind_symbols: the new rebindings before the old, and a pass over every section of every image. */
    method RebindSymbols(rebindings: seq<Rebinding>)
      requires Valid()
      modifies words, this`entries, this`saved, CellsOf([rebindings] + entries)
      ensures Valid() && entries == [rebindings] + old(entries) && Within(AllSlots(symbols, sections), words.Length)
      ensures Now() == Pass(entries, AllSlots(symbols, sections), old(Now()))
      ensures SectionsApart(sections) ==>
        forall s, i :: 0 <= s < |sections| && 0 <= i < |sections[s].indices| ==>
          var a, index := sections[s].addr + i, sections[s].indices[i];
          var symbol := symbols(index);
          if index in {0x4000_0000, 0x8000_0000, 0xc000_0000} || |symbol| < 2 || Unknown(entries, symbol[1..])
          then words[a] == old(words[a])
          else exists k: nat, j: nat :: Newest(entries, symbol[1..], k, j) && words[a] == entries[k][j].replacement
      ensures SectionsApart(sections) ==>
        forall a :: 0 <= a < words.Length
                    && (forall s :: 0 <= s < |sections| ==>
                          !(sections[s].addr <= a < sections[s].addr + |sections[s].indices|)) ==>
          words[a] == old(words[a])
    {
      hide Pass, AllSlots, Newest, Unknown, SectionsApart, CellsOf;
      entries := [rebindings] + entries;
      assert Now() == old(Now());
      RebindImages();
      ghost var before, after := old(Now()), Now();
      assert forall a :: 0 <= a < words.Length ==> words[a] == after.words[a] && old(words[a]) == before.words[a];
      if SectionsApart(sections) {
        forall s, i | 0 <= s < |sections| && 0 <= i < |sections[s].indices| {
          WordAfter(entries, symbols, sections, before, s, i);
        }
        forall a | 0 <= a < words.Length
                   && forall s :: 0 <= s < |sections| ==>
                        !(sections[s].addr <= a < sections[s].addr + |sections[s].indices|)
        {
          WordOutside(entries, symbols, sections, before, a);
        }
      }
    }

    // Every section of every image.
    method RebindImages()
      requires Valid()
      modifies words, this`saved, CellsOf(entries)
      ensures Within(AllSlots(symbols, sections), words.Length)
      ensures Now() == Pass(entries, AllSlots(symbols, sections), old(Now()))
    {
      for s := 0 to |sections|
        invariant Within(AllSlots(symbols, sections[..s]), words.Length)
        invariant Now() == Pass(entries, AllSlots(symbols, sections[..s]), old(Now()))
      {
        PerformRebindingWithSection(sections[s]);
        assert sections[..s + 1][..s] == sections[..s];
        PassAdds(entries, AllSlots(symbols, sections[..s]), SectionSlots(symbols, sections[s]), old(Now()));
      }
      assert sections[..|sections|] == sections;
    }
  }

  lemma MatchCell(entries: Entries, name: Name)
    requires Match(entries, name).Some? && Match(entries, name).value.replaced != null
    ensures Match(entries, name).value.replaced in CellsOf(entries)
  {
    MatchIsNewest(entries, name);
    var i, a := EffectivePlace(entries, name, 0);
  }
}

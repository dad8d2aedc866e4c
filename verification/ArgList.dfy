/** Argument lists: up to sixteen type codes packed four bits each into one word. */
module ArgList {

  const MAX_ARGS: nat := 16

  // What stands after the last argument.
  const NONE: bv64 := 0

  predicate IsCode(code: bv64) {
    0 < code < 16
  }

  // make_type: the first code in the lowest four bits, the rest shifted above it.
  function MakeType(codes: seq<bv64>): bv64 {
    if codes == [] then 0 else codes[0] | (MakeType(codes[1..]) << 4)
  }

  // Four times an index, as a machine word.
  function Shift(index: nat): (shift: bv64)
    requires index < MAX_ARGS
    ensures shift <= 60
  {
    ShiftBounds(index);
    FourTimes(index)
  }

  function FourTimes(index: nat): bv64 {
    if index == 0 then 0 else FourTimes(index - 1) + 4
  }

  lemma ShiftBounds(index: nat)
    requires index < MAX_ARGS
    ensures FourTimes(index) <= 60
    ensures index > 0 ==> FourTimes(index - 1) <= 56
  {
    assert FourTimes(1) == 4 && FourTimes(2) == 8 && FourTimes(3) == 12 && FourTimes(4) == 16;
    assert FourTimes(5) == 20 && FourTimes(6) == 24 && FourTimes(7) == 28 && FourTimes(8) == 32;
    assert FourTimes(9) == 36 && FourTimes(10) == 40 && FourTimes(11) == 44 && FourTimes(12) == 48;
    assert FourTimes(13) == 52 && FourTimes(14) == 56 && FourTimes(15) == 60;
  }

  // operator[]: the type code at an index.
  function TypeAt(types: bv64, index: nat): bv64 {
    if index >= MAX_ARGS then NONE else Extract(types, Shift(index))
  }

  function Extract(types: bv64, shift: bv64): bv64
    requires shift <= 60
  {
    (types & (0xf << shift)) >> shift
  }

  lemma FirstCode(first: bv64, rest: bv64)
    requires first < 16
    ensures Extract(first | (rest << 4), 0) == first
  {
  }

  lemma NextCode(first: bv64, rest: bv64, shift: bv64)
    requires first < 16 && shift <= 56
    ensures Extract(first | (rest << 4), shift + 4) == Extract(rest, shift)
  {
  }

  lemma NoCode(shift: bv64)
    requires shift <= 60
    ensures Extract(0, shift) == NONE
  {
  }

  // Reading a packed list gives back its codes in order and nothing after them.
  lemma {:induction false} TypesReadBack(codes: seq<bv64>, index: nat)
    requires |codes| <= MAX_ARGS && forall code <- codes :: IsCode(code)
    ensures TypeAt(MakeType(codes), index) == if index < |codes| then codes[index] else NONE
  {
    hide Extract;
    if index < MAX_ARGS {
      if codes == [] {
        NoCode(Shift(index));
      } else if index == 0 {
        assert IsCode(codes[0]);
        FirstCode(codes[0], MakeType(codes[1..]));
      } else {
        assert IsCode(codes[0]);
        ShiftBounds(index);
        NextCode(codes[0], MakeType(codes[1..]), Shift(index - 1));
        TypesReadBack(codes[1..], index - 1);
      }
    }
  }
}

/**
  The four 2-bit codes of the bit-to-color table and the ways the program
  writes and reads them as text.
 */
module Codes {
  import opened Wrappers

  /** One 2-bit code: the keys '00', '01', '10' and '11' of the color table. */
  datatype Code = B00 | B01 | B10 | B11

  /** A code is one of the four. */
  lemma CodeCases(c: Code)
    ensures c == B00 || c == B01 || c == B10 || c == B11
  {
  }

  /** The key text of a code, which is also its rendering in a bit-code answer. */
  function Bits(c: Code): string
  {
    match c
    case B00 => "00"
    case B01 => "01"
    case B10 => "10"
    case B11 => "11"
  }

  /** A text read back as a key: only the four exact two-character keys name a code. */
  function ParseKey(s: string): (r: Option<Code>)
    ensures r.Some? ==> Bits(r.value) == s
    ensures forall c: Code :: Bits(c) == s ==> r == Some(c)
  {
    if s == "00" then Some(B00)
    else if s == "01" then Some(B01)
    else if s == "10" then Some(B10)
    else if s == "11" then Some(B11)
    else None
  }

  /**
    The order in which the table's keys are enumerated. Keys that read as
    array indices ("10", "11") come first in ascending order, then the other
    keys ("00", "01") in the order they were declared.
   */
  const KeyOrder: seq<Code> := [B10, B11, B00, B01]

  /** The code picked by a random draw `d` in 0..3 used as an index into the key list. */
  function CodeOf(d: nat): Code
    requires d < 4
  {
    KeyOrder[d]
  }

  /** Every code is picked by exactly one draw, so a uniform draw picks a uniform code. */
  lemma KeyOrderIsBijection()
    ensures |KeyOrder| == 4
    ensures forall c: Code :: c in KeyOrder
    ensures forall i, j :: 0 <= i < j < 4 ==> KeyOrder[i] != KeyOrder[j]
  {
    forall c: Code ensures c in KeyOrder {
      match c
      case B10 => assert KeyOrder[0] == c;
      case B11 => assert KeyOrder[1] == c;
      case B00 => assert KeyOrder[2] == c;
      case B01 => assert KeyOrder[3] == c;
    }
  }
}

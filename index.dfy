/** Index arithmetic of the SL library: normalisation of possibly
    negative positions and inversion between the two notations.

    For a string of length 4 the positions are

      bytes:     a  b  c  d  \0
      positive:  0  1  2  3  4
      negative: -4 -3 -2 -1
*/
module Index {

  /** sl_norm_idx: a negative index counts from the end, a positive one is
      saturated to the length. An index below -len wraps around in the
      source's unsigned arithmetic; callers must not pass one. */
  function NormIdx(len: nat, idx: int): (r: nat)
    requires -(len as int) <= idx
    ensures r <= len
    ensures idx < 0 ==> r + (-idx) == len
    ensures 0 <= idx <= len ==> r == idx
    ensures len < idx ==> r == len
  {
    if idx < 0 then len + idx
    else if idx > len then len
    else idx
  }

  lemma NormIdxExamples()
    ensures NormIdx(4, -1) == 3
    ensures NormIdx(4, -4) == 0
    ensures NormIdx(4, 10) == 4
    ensures NormIdx(4, 2) == 2
  {
  }

  /** slinv: turns a positive position into the negative one for the same
      byte and back. */
  function Inv(len: nat, pos: int): (r: int)
    ensures 0 < pos <= len ==> -(len as int) < r <= 0
    ensures -(len as int) <= pos <= 0 ==> 0 <= r <= len
    ensures r == pos + len || r == pos - len
  {
    if pos > 0 then -1 * (len - pos) else len + pos
  }

  /** Inversion keeps the logical position for every position except 0
      (and len, which has no negative form). */
  lemma {:induction false} InvKeepsPosition(len: nat, pos: int)
    requires -(len as int) <= pos < len && pos != 0
    ensures -(len as int) <= Inv(len, pos)
    ensures NormIdx(len, Inv(len, pos)) == NormIdx(len, pos)
    ensures (pos < 0) != (Inv(len, pos) < 0)
    ensures pos != -(len as int) ==> Inv(len, Inv(len, pos)) == pos
  {
  }

  /** Position 0 (the first byte) is inverted to len (the terminator). */
  lemma InvOfStartIsEnd(len: nat)
    requires len > 0
    ensures Inv(len, 0) == len
    ensures NormIdx(len, Inv(len, 0)) != NormIdx(len, 0)
  {
  }

  /** The inversion slinv's documentation promises: every position keeps
      its byte, 0 included, which becomes -len. */
  function InvIntended(len: nat, pos: int): (r: int)
    ensures 0 <= pos < len ==> -(len as int) <= r < 0
    ensures -(len as int) <= pos < 0 ==> 0 <= r < len
    ensures r == pos + len || r == pos - len
  {
    if pos >= 0 then pos - len else len + pos
  }

  /** The corrected inversion keeps the logical position of every index,
      flips its sign and is its own inverse. */
  lemma {:induction false} InvIntendedKeepsPosition(len: nat, pos: int)
    requires -(len as int) <= pos < len
    ensures -(len as int) <= InvIntended(len, pos) < len
    ensures NormIdx(len, InvIntended(len, pos)) == NormIdx(len, pos)
    ensures (pos < 0) != (InvIntended(len, pos) < 0)
    ensures InvIntended(len, InvIntended(len, pos)) == pos
  {
  }

  /** The two inversions differ only at 0. */
  lemma InvIntendedAgrees(len: nat, pos: int)
    requires pos != 0
    ensures InvIntended(len, pos) == Inv(len, pos)
  {
  }
}

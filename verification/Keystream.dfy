/** Bytes flipped by a keystream that is known by position. */
module Keystream {
  import opened Bytes

  /** Flips `data`, whose first byte meets position `start` of the keystream. */
  function Flip(key: nat -> byte, start: nat, data: seq<byte>): (r: seq<byte>)
    ensures |r| == |data|
  {
    seq(|data|, i requires 0 <= i < |data| => Xor8(data[i], key(start + i)))
  }

  lemma {:induction false} FlipTwice(key: nat -> byte, start: nat, data: seq<byte>)
    ensures Flip(key, start, Flip(key, start, data)) == data
  {
    forall i | 0 <= i < |data|
      ensures Flip(key, start, Flip(key, start, data))[i] == data[i]
    {
      Xor8Cancel(data[i], key(start + i));
    }
  }

  /** A bit is turned over exactly when the keystream has that bit at its byte's position. */
  lemma {:induction false} FlipsBits(key: nat -> byte, start: nat, data: seq<byte>, i: nat, k: nat)
    requires i < |data| && k < 8
    ensures BitOf(Flip(key, start, data)[i], k) != BitOf(data[i], k) <==> BitOf(key(start + i), k)
  {
    WordSizes();
    BitsAlone(data[i], key(start + i), 8, k);
  }
}

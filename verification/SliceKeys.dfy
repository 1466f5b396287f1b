/**
 Routing keys: byte strings in lexicographic order, and the key representation that
 caches the first eight bytes as a big-endian word.

 Everything above this module works with the byte string itself and with `Compare`.
 `CompareIsLexicographic` justifies that: on keys built by `NewSliceKey` the
 prefix-accelerated comparison computes exactly `Compare` of the byte strings.
 */
module SliceKeys {

  import opened Words

  type Key = seq<byte>

  // ---------------------------------------------------------------------------
  // Lexicographic order
  // ---------------------------------------------------------------------------

  /** Embeds byte strings into [0,1): a key is a base-257 fraction in which "no more bytes" is the
      digit 0. The order of keys is the order of these numbers. */
  function Rank(k: Key): (r: real)
    ensures 0.0 <= r < 1.0
    ensures k == [] <==> r == 0.0
  {
    if k == [] then 0.0 else (k[0] as real + 1.0 + Rank(k[1..])) / 257.0
  }

  /** Byte-by-byte lexicographic comparison (`bytes.Compare`). */
  function Compare(a: Key, b: Key): (c: int)
    ensures -1 <= c <= 1
    ensures c < 0 <==> Rank(a) < Rank(b)
    ensures c > 0 <==> Rank(a) > Rank(b)
    ensures c == 0 <==> a == b
  {
    if a == [] then
      if b == [] then 0 else -1
    else if b == [] then 1
    else if a[0] < b[0] then -1
    else if a[0] > b[0] then 1
    else
      assert a == [a[0]] + a[1..] && b == [b[0]] + b[1..];
      Compare(a[1..], b[1..])
  }

  /** First-difference reading of "a comes before b", without recursion: at the first position
      where they differ, a has run out or carries the smaller byte. */
  ghost predicate Precedes(a: Key, b: Key)
  {
    exists i: nat :: FirstDifference(a, b, i) && i < |b| && (i == |a| || a[i] < b[i])
  }

  ghost predicate FirstDifference(a: Key, b: Key, i: nat)
  {
    i <= |a| && i <= |b| && a[..i] == b[..i] && (i < |a| && i < |b| ==> a[i] != b[i])
  }

  lemma {:induction false} CompareFindsFirstDifference(a: Key, b: Key)
    ensures Compare(a, b) < 0 <==> Precedes(a, b)
  {
    if Compare(a, b) < 0 {
      var i := DifferenceBelow(a, b);
    } else if Precedes(a, b) {
      var i: nat :| FirstDifference(a, b, i) && i < |b| && (i == |a| || a[i] < b[i]);
      BelowAtDifference(a, b, i);
    }
  }

  lemma {:induction false} DifferenceBelow(a: Key, b: Key) returns (i: nat)
    requires Compare(a, b) < 0
    ensures FirstDifference(a, b, i) && i < |b| && (i == |a| || a[i] < b[i])
  {
    if a == [] || a[0] < b[0] {
      i := 0;
    } else {
      var j := DifferenceBelow(a[1..], b[1..]);
      i := j + 1;
      assert a[..i] == [a[0]] + a[1..][..j];
      assert b[..i] == [b[0]] + b[1..][..j];
    }
  }

  lemma {:induction false} BelowAtDifference(a: Key, b: Key, i: nat)
    requires FirstDifference(a, b, i) && i < |b| && (i == |a| || a[i] < b[i])
    ensures Compare(a, b) < 0
  {
    if i > 0 {
      assert a[0] == a[..i][0] == b[..i][0] == b[0];
      assert a[1..][..i - 1] == a[..i][1..] == b[..i][1..] == b[1..][..i - 1];
      BelowAtDifference(a[1..], b[1..], i - 1);
    }
  }

  // ---------------------------------------------------------------------------
  // Keys with a cached prefix
  // ---------------------------------------------------------------------------

  datatype SliceKey = SliceKey(data: Key, bytesPrefix: uint64)

  /** Byte i of the key, 0 past its end. */
  function ByteAt(k: Key, i: nat): byte
  {
    if i < |k| then k[i] else 0
  }

  /** The weight 2^(8*(7-i)) of byte i in the prefix. */
  function Place(i: nat): nat
    requires i < 8
  {
    match i
    case 0 => 0x0100_0000_0000_0000
    case 1 => 0x0001_0000_0000_0000
    case 2 => 0x0000_0100_0000_0000
    case 3 => 0x0000_0001_0000_0000
    case 4 => 0x0000_0000_0100_0000
    case 5 => 0x0000_0000_0001_0000
    case 6 => 0x0000_0000_0000_0100
    case _ => 0x0000_0000_0000_0001
  }

  /** Bytes i..8 of the key as one big-endian word. */
  function Tail(k: Key, i: nat): (w: nat)
    requires i <= 8
    ensures i > 0 ==> w < Place(i - 1)
    ensures w < 0x1_0000_0000_0000_0000
    decreases 8 - i
  {
    if i == 8 then 0 else ByteAt(k, i) * Place(i) + Tail(k, i + 1)
  }

  lemma TailUnfolds(k: Key, i: nat)
    requires i < 8
    ensures Tail(k, i) == ByteAt(k, i) * Place(i) + Tail(k, i + 1)
    ensures ByteAt(k, i) * Place(i) >= 0
  {
  }

  lemma NothingLeft(k: Key)
    ensures Tail(k, 8) == 0
  {
  }

  /** What every key made by the constructor satisfies. */
  ghost predicate WellBuilt(k: SliceKey)
  {
    k.bytesPrefix == Tail(k.data, 0)
  }

  /** The eight shifted bytes occupy disjoint bits, so or-ing them in is adding them. */
  method NewSliceKey(b: Key) returns (k: SliceKey)
    ensures k.data == b && WellBuilt(k)
  {
    hide Tail, Place;
    var prefix: nat := 0;
    var l := |b|;
    for i := 0 to 8
      invariant prefix + Tail(b, i) == Tail(b, 0)
    {
      var byteVal: byte := 0;
      if i < l {
        byteVal := b[i];
      }
      TailUnfolds(b, i);
      prefix := prefix + byteVal * Place(i);
    }
    NothingLeft(b);
    return SliceKey(b, prefix);
  }

  /** The prefix decides; on equal prefixes the lengths decide if either key fits in the prefix;
      otherwise the bytes do. */
  function CompareKeys(k: SliceKey, other: SliceKey): int
  {
    if k.bytesPrefix < other.bytesPrefix then -1
    else if k.bytesPrefix > other.bytesPrefix then 1
    else if |k.data| <= 8 || |other.data| <= 8 then
      if |k.data| < |other.data| then -1
      else if |k.data| > |other.data| then 1
      else 0
    else Compare(k.data, other.data)
  }

  predicate EqualKeys(k: SliceKey, other: SliceKey)
  {
    k.bytesPrefix == other.bytesPrefix && k.data == other.data
  }

  lemma PlaceDecides(i: nat, x: byte, s: nat, y: byte, t: nat)
    requires i < 8 && s < Place(i) && t < Place(i)
    ensures x * Place(i) + s < y * Place(i) + t <==> x < y || (x == y && s < t)
  {
    match i
    case 0 =>
    case 1 =>
    case 2 =>
    case 3 =>
    case 4 =>
    case 5 =>
    case 6 =>
    case _ =>
  }

  /** One byte of the prefix decides unless both keys carry the same one. */
  lemma TailStep(a: Key, b: Key, i: nat)
    requires i < 8
    ensures Tail(a, i) < Tail(b, i) <==>
            ByteAt(a, i) < ByteAt(b, i) || (ByteAt(a, i) == ByteAt(b, i) && Tail(a, i + 1) < Tail(b, i + 1))
  {
    PlaceDecides(i, ByteAt(a, i), Tail(a, i + 1), ByteAt(b, i), Tail(b, i + 1));
  }

  lemma {:induction false} PaddingIsZero(k: Key, i: nat)
    requires |k| <= i <= 8
    ensures Tail(k, i) == 0
    decreases 8 - i
  {
    if i < 8 {
      PaddingIsZero(k, i + 1);
    }
  }

  /** Comparing the rest of two keys from place i on, with what is left of their prefixes. */
  lemma {:induction false} TailDecides(a: Key, b: Key, i: nat)
    requires i <= 8 && i <= |a| && i <= |b|
    ensures Tail(a, i) < Tail(b, i) ==> Compare(a[i..], b[i..]) == -1
    ensures Tail(a, i) > Tail(b, i) ==> Compare(a[i..], b[i..]) == 1
    ensures Tail(a, i) == Tail(b, i) && (|a| <= 8 || |b| <= 8) ==>
              Compare(a[i..], b[i..]) == if |a| < |b| then -1 else if |a| > |b| then 1 else 0
    decreases 8 - i
  {
    if i == |a| {
      PaddingIsZero(a, i);
      if i == |b| { PaddingIsZero(b, i); }
    } else if i == |b| {
      PaddingIsZero(b, i);
    } else if i < 8 {
      TailStep(a, b, i);
      TailStep(b, a, i);
      TailDecides(a, b, i + 1);
      assert a[i..][1..] == a[i + 1..] && b[i..][1..] == b[i + 1..];
    }
  }

  /** The accelerated comparison is lexicographic comparison of the whole byte strings, for every
      length and every content; it answers 0 exactly when the keys are equal. */
  lemma CompareIsLexicographic(k: SliceKey, other: SliceKey)
    requires WellBuilt(k) && WellBuilt(other)
    ensures CompareKeys(k, other) == Compare(k.data, other.data)
    ensures CompareKeys(k, other) == 0 <==> EqualKeys(k, other)
  {
    TailDecides(k.data, other.data, 0);
    assert k.data[0..] == k.data && other.data[0..] == other.data;
  }

  /** Hence it is a total order. */
  lemma CompareIsTotalOrder(a: SliceKey, b: SliceKey, c: SliceKey)
    requires WellBuilt(a) && WellBuilt(b) && WellBuilt(c)
    ensures CompareKeys(a, a) == 0
    ensures CompareKeys(a, b) == -CompareKeys(b, a)
    ensures CompareKeys(a, b) == 0 ==> a == b
    ensures CompareKeys(a, b) <= 0 && CompareKeys(b, c) <= 0 ==> CompareKeys(a, c) <= 0
  {
    CompareIsLexicographic(a, a);
    CompareIsLexicographic(a, b);
    CompareIsLexicographic(b, a);
    CompareIsLexicographic(b, c);
    CompareIsLexicographic(a, c);
  }

  /** The order is not dense: nothing lies between a key and that key followed by a zero byte. */
  lemma {:induction false} ZeroByteIsSuccessor(a: Key, k: Key)
    ensures Compare(a, a + [0]) < 0
    ensures !(Compare(a, k) < 0 && Compare(k, a + [0]) < 0)
  {
    if a == [] {
      assert ([] + [0])[1..] == [];
    } else {
      assert (a + [0])[1..] == a[1..] + [0];
      ZeroByteIsSuccessor(a[1..], if k == [] then [] else k[1..]);
    }
  }
}

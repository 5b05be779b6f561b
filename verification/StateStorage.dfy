/** Contract storage: a write cache over a trie that holds trimmed, encoded words. */
module StateStorage {
  import opened Bytes
  import opened Rlp
  import opened RlpRaw

  /** A storage trie, by key. */
  type StorageTrie = map<Word, bytes>

  /** `bytes.TrimLeft` of zero bytes. */
  function Trim(b: bytes): (r: bytes)
    ensures r != [] ==> r[0] != 0
    ensures |r| <= |b|
  {
    if b != [] && b[0] == 0 then Trim(b[1..]) else b
  }

  /** `SetBytes`: right-aligned, cropped from the left when too long. */
  function Pad(b: bytes): (r: Word)
    ensures |b| >= 32 ==> r == b[|b| - 32..]
  {
    if |b| > 32 then b[|b| - 32..] else Zeros(32 - |b|) + b
  }

  lemma {:induction false} TrimZeros(b: bytes)
    ensures b == Zeros(|b| - |Trim(b)|) + Trim(b)
  {
    if b != [] && b[0] == 0 {
      TrimZeros(b[1..]);
      assert b == [0] + b[1..];
    }
  }

  /** Padding undoes trimming. */
  lemma PadTrim(w: Word)
    ensures Pad(Trim(w)) == w
    ensures Trim(w) == [] <==> w == ZERO
  {
    TrimZeros(w);
    var k := 32 - |Trim(w)|;
    assert Trim(w) != [] ==> w[k] == Trim(w)[0];
    assert Trim(w) == [] ==> w == ZERO + [];
  }

  /** The value of a slot, as read from a storage trie. */
  function Decode(trie: StorageTrie, key: Word): Word {
    if key !in trie || trie[key] == [] then ZERO else Unpack(trie[key])
  }

  function Unpack(enc: bytes): Word {
    if Split(enc).Ok? then Pad(Split(enc).value.content) else ZERO
  }

  /** What is stored for a value that is not zero. */
  function Packed(value: Word): bytes { Encode(Str(Trim(value))) }

  lemma UnpackPacked(trie: StorageTrie, key: Word, value: Word)
    requires key in trie && trie[key] == Packed(value)
    ensures Decode(trie, key) == value
  {
    var s := Trim(value);
    EncodeIsFrame(Str(s));
    EncodeNonEmpty(Str(s));
    assert |Encode(Str(s))| <= 33;
    assert Encode(Str(s)) + [] == Encode(Str(s));
    SplitComplete(KindOf(Str(s)), s, []);
    PadTrim(value);
  }

  /** The trie holds exactly the encodings of values that are not zero: zero is absence. */
  ghost predicate Canonical(trie: StorageTrie) {
    forall k :: k in trie ==> Decode(trie, k) != ZERO && trie[k] == Packed(Decode(trie, k))
  }

  lemma PutCanonical(trie: StorageTrie, key: Word, value: Word)
    requires Canonical(trie) && value != ZERO
    ensures Canonical(trie[key := Packed(value)]) && Decode(trie[key := Packed(value)], key) == value
    ensures forall k :: k != key ==> Decode(trie[key := Packed(value)], k) == Decode(trie, k)
  {
    var t := trie[key := Packed(value)];
    UnpackPacked(t, key, value);
    hide Packed, Unpack;
    OtherSlots(trie, t, key);
    hide Decode;
  }

  lemma CanonicalIs(trie: StorageTrie)
    requires Canonical(trie)
    ensures forall k :: k in trie <==> Decode(trie, k) != ZERO
    ensures forall k :: k in trie ==> trie[k] == Encode(Str(Trim(Decode(trie, k))))
  {
    hide Unpack;
  }

  lemma OtherSlots(a: StorageTrie, b: StorageTrie, key: Word)
    requires forall k :: k != key ==> (k in a <==> k in b) && (k in a ==> a[k] == b[k])
    ensures forall k :: k != key ==> Decode(a, k) == Decode(b, k)
  {
    hide Unpack;
  }

  lemma DeleteCanonical(trie: StorageTrie, key: Word)
    requires Canonical(trie)
    ensures Canonical(trie - {key}) && Decode(trie - {key}, key) == ZERO
    ensures forall k :: k != key ==> Decode(trie - {key}, k) == Decode(trie, k)
  {
    hide Packed, Unpack;
    OtherSlots(trie, trie - {key}, key);
    assert Decode(trie - {key}, key) == ZERO;
    hide Decode;
  }

  /** Two canonical tries with the same values are the same trie: the storage root depends on nothing else. */
  lemma SameValuesSameTrie(a: StorageTrie, b: StorageTrie)
    requires Canonical(a) && Canonical(b) && forall k :: Decode(a, k) == Decode(b, k)
    ensures a == b
  {
    hide Packed, Unpack;
    forall k ensures k in a <==> k in b {
      assert Decode(a, k) == Decode(b, k);
    }
    assert forall k :: k in a ==> a[k] == Packed(Decode(a, k));
    assert forall k :: k in b ==> b[k] == Packed(Decode(b, k));
  }
}

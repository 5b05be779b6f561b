/** The nodes of a Merkle-Patricia trie and their serialised form. */
module TrieNode {
  import opened Bytes
  import Rlp

  /**
    A trie node. `Nil` is an empty child slot. The same shapes serve for the live form, whose
    short-node keys hold nibbles, and the collapsed form, whose keys are hex-prefix encoded.
   */
  datatype Node =
    | Nil
    | Val(val: bytes)
    | HashRef(hash: bytes)
    | Short(key: bytes, child: Node)
    | Full(children: seq<Node>)

  /** The value tree the encoder walks for a collapsed node. */
  function ToValue(n: Node): Rlp.Value
    decreases n, 1
  {
    match n
    case Nil => Rlp.Str([])
    case Val(v) => Rlp.Str(v)
    case HashRef(h) => Rlp.Str(h)
    case Short(k, c) => Rlp.Lst([Rlp.Str(k), ToValue(c)])
    case Full(cs) => Rlp.Lst(ToValues(cs))
  }

  function ToValues(cs: seq<Node>): (vs: seq<Rlp.Value>)
    ensures |vs| == |cs|
    ensures forall i :: 0 <= i < |cs| ==> vs[i] == ToValue(cs[i])
    decreases cs, 0
  {
    if cs == [] then [] else [ToValue(cs[0])] + ToValues(cs[1..])
  }

  function Serialise(n: Node): bytes { Rlp.Encode(ToValue(n)) }
}

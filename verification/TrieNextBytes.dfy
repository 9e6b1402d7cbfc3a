/** The bytes that may follow next in a trie, `icu/common/bytestrie.cpp`. */
module TrieNextBytes {
  import opened Common
  import opened TrieNodes
  import opened TrieBytes
  import opened BytesTries

  /** The keys of the edges, from left to right. */
  ghost function Keys(sub: Sub): (r: seq<Byte>)
    ensures |r| == sub.Size()
  {
    match sub
    case Split(_, less, ge) => Keys(less) + Keys(ge)
    case FinalEdge(key, _, rest) => [key] + Keys(rest)
    case JumpEdge(key, _, rest) => [key] + Keys(rest)
    case LastEdge(key, _) => [key]
  }

  ghost predicate Rising(s: seq<Byte>, lo: int, hi: int) {
    (forall i, j :: 0 <= i < j < |s| ==> s[i] < s[j]) && forall i :: 0 <= i < |s| ==> lo <= s[i] < hi
  }

  lemma {:induction false} KeysRise(sub: Sub, lo: int, hi: int)
    requires sub.Ordered(lo, hi)
    ensures Rising(Keys(sub), lo, hi) && lo <= hi
    ensures forall b: Byte :: b in Keys(sub) <==> sub.HasKey(b)
  {
    match sub
    case Split(key, less, ge) =>
      KeysRise(less, lo, key);
      KeysRise(ge, key, hi);
    case FinalEdge(key, _, rest) => KeysRise(rest, key + 1, hi);
    case JumpEdge(key, _, rest) => KeysRise(rest, key + 1, hi);
    case LastEdge(_, _) =>
  }

  /** The next bytes of a state. */
  ghost function NextBytes(st: State): seq<Byte> {
    match st
    case Stopped => []
    case InLinear(bytes, _) => if bytes == [] then [] else [bytes[0]]
    case At(node) => NodeBytes(node)
  }

  ghost function NodeBytes(node: Node): seq<Byte> {
    match node
    case Final(_) => []
    case Value(_, next) => NodeBytes(next)
    case Linear(bytes, _) => if bytes == [] then [] else [bytes[0]]
    case Branch(sub) => Keys(sub)
  }

  /** They are in ascending order, and are those with which a step does not stop. */
  lemma {:induction false} NextBytesAreSteps(st: State)
    requires st.WellFormed()
    ensures Rising(NextBytes(st), 0, 0x100)
    ensures forall b: Byte :: b in NextBytes(st) <==> Step(st, b) != Stopped
  {
    if st.At? {
      NodeBytesAreSteps(st.node);
    }
  }

  lemma {:induction false} NodeBytesAreSteps(node: Node)
    requires node.WellFormed()
    ensures Rising(NodeBytes(node), 0, 0x100)
    ensures forall b: Byte :: b in NodeBytes(node) <==> StepNode(node, b) != Stopped
    decreases node
  {
    match node
    case Final(_) =>
    case Value(_, next) => NodeBytesAreSteps(next);
    case Linear(_, _) =>
    case Branch(sub) =>
      KeysRise(sub, 0, 0x100);
      forall b: Byte
        ensures StepSub(sub, b) == Stopped <==> !sub.HasKey(b)
      {
        StepSubIsLookUp(sub, 0, 0x100, b, []);
      }
  }

  /** Appends each byte that may follow, and returns how many there are. */
  method GetNextBytes(trie: BytesTrie) returns (out: seq<Byte>, count: nat)
    requires trie.Valid()
    ensures out == NextBytes(trie.st) && count == |out|
  {
    if trie.pos == None {
      return [], 0;
    }
    var pos: nat := trie.pos.value;
    if trie.remainingMatchLength >= 0 {
      return [trie.bytes[pos]], 1;
    }
    ghost var n := trie.st.node;
    LeadByte(trie.bytes, pos, n);
    if trie.bytes[pos] >= MIN_VALUE_LEAD {
      if trie.bytes[pos] % 2 == 1 {
        return [], 0;
      }
      pos := SkipValue(pos + 1, trie.bytes[pos]);
      n := n.next;
    }
    out, count := GetNodeBytes(trie.bytes, pos, n);
  }

  method GetNodeBytes(bytes: seq<Byte>, start: nat, ghost n: Node) returns (out: seq<Byte>, count: nat)
    requires Encodes(bytes, start, n) && n.WellFormed() && !n.IsValue()
    ensures out == NodeBytes(n) && count == |out|
  {
    hide EncodesSub, Keys;
    LeadByte(bytes, start, n);
    var node, pos := bytes[start], start + 1;
    if node < MIN_LINEAR_MATCH {
      if node == 0 {
        node := bytes[pos];
        pos := pos + 1;
      }
      var length := node as int + 1;
      out := GetNextBranchBytes(bytes, pos, length, [], n.sub, 0, 0x100);
      count := length;
    } else {
      assert n.bytes[0] == bytes[pos..][0];
      return [bytes[pos]], 1;
    }
  }

  method GetNextBranchBytes(bytes: seq<Byte>, start: nat, size: nat, before: seq<Byte>, ghost sub: Sub, ghost lo: int,
                            ghost hi: int)
    returns (out: seq<Byte>)
    requires EncodesSub(bytes, start, sub) && sub.Ordered(lo, hi) && 2 <= size == sub.Size()
    ensures out == before + Keys(sub)
    decreases size
  {
    hide Encodes, EncodesSub, ReadDelta;
    var pos: nat, length := start, size;
    out := before;
    ghost var s: Sub, l: int := sub, lo;
    while length > MAX_BRANCH_LINEAR_SUB_NODE_LENGTH
      invariant EncodesSub(bytes, pos, s) && s.Ordered(l, hi) && 2 <= length == s.Size() <= size
      invariant out + Keys(s) == before + Keys(sub)
      decreases length
    {
      SplitEncoded(bytes, pos, s);
      pos := pos + 1;
      out := GetNextBranchBytes(bytes, JumpByDelta(bytes, pos), length / 2, out, s.less, l, s.key);
      length := length - length / 2;
      pos := SkipDelta(bytes, pos);
      l := s.key;
      s := s.ge;
    }
    out := GetListBytes(bytes, pos, length, out, s);
  }

  method GetListBytes(bytes: seq<Byte>, start: nat, size: nat, before: seq<Byte>, ghost sub: Sub)
    returns (out: seq<Byte>)
    requires EncodesSub(bytes, start, sub) && 2 <= size == sub.Size() <= MAX_BRANCH_LINEAR_SUB_NODE_LENGTH
    ensures out == before + Keys(sub)
  {
    hide Encodes, EncodesSub, ReadValue;
    var pos: nat, length := start, size;
    out := before;
    ghost var s := sub;
    while length > 1
      invariant EncodesSub(bytes, pos, s) && 1 <= length == s.Size() <= MAX_BRANCH_LINEAR_SUB_NODE_LENGTH
      invariant out + Keys(s) == before + Keys(sub)
    {
      EdgeEncoded(bytes, pos, s);
      out := out + [bytes[pos]];
      pos := pos + 1;
      pos := SkipValue(pos + 1, bytes[pos]);
      length := length - 1;
      s := s.rest;
    }
    LastEdgeEncoded(bytes, pos, s);
    out := out + [bytes[pos]];
  }
}

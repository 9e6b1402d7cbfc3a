/**
 Whether all strings that may follow in a trie have the same value, `icu/common/bytestrie.cpp`.
 The search passes over the last edge of the less-than half of a branch of more than five
 edges, and forgets a value that it finds first in such a half. So its positive answer is
 right for all values exactly if all branches are narrower; its negative answer always is.
 */
module TrieUniqueValue {
  import opened Common
  import opened TrieNodes
  import opened TrieBytes
  import opened BytesTries

  datatype Verdict = Differ | Same(value: int)

  /** All strings of a node have the value `u`. */
  ghost predicate Uniform(node: Node, u: int) {
    forall key :: node.LookUp(key).Some? ==> node.LookUp(key) == Some(u)
  }

  ghost predicate SubUniform(sub: Sub, u: int) {
    forall b, more :: sub.LookUp(b, more).Some? ==> sub.LookUp(b, more) == Some(u)
  }

  ghost predicate AllSame(node: Node) {
    exists u :: Uniform(node, u)
  }

  /** Compares a value with the one that was found before. */
  function Compare(value: int, seen: Option<int>): Verdict {
    if seen.Some? && value != seen.value then Differ else Same(value)
  }

  /** What the search finds. It does not go down the last edge of the less-than half of a wide branch. */
  ghost function CheckNode(node: Node, seen: Option<int>): Verdict
    decreases node
  {
    match node
    case Final(value) => Compare(value, seen)
    case Value(value, next) => if Compare(value, seen) == Differ then Differ else CheckNode(next, Some(value))
    case Linear(_, next) => CheckNode(next, seen)
    case Branch(sub) =>
      match CheckEdges(sub, seen)
      case Differ => Differ
      case Same(value) => CheckLast(sub, value)
  }

  /** All edges but the last one. */
  ghost function CheckEdges(sub: Sub, seen: Option<int>): Verdict
    decreases sub
  {
    match sub
    case Split(_, less, ge) => if CheckEdges(less, seen) == Differ then Differ else CheckEdges(ge, seen)
    case FinalEdge(_, value, rest) => if Compare(value, seen) == Differ then Differ else CheckEdges(rest, Some(value))
    case JumpEdge(_, target, rest) =>
      (match CheckNode(target, seen)
       case Differ => Differ
       case Same(value) => CheckEdges(rest, Some(value)))
    case LastEdge(_, _) => Same(if seen.Some? then seen.value else 0)
  }

  /** The node that the last edge leads to. */
  ghost function CheckLast(sub: Sub, value: int): Verdict
    decreases sub
  {
    match sub
    case Split(_, _, ge) => CheckLast(ge, value)
    case FinalEdge(_, _, rest) => CheckLast(rest, value)
    case JumpEdge(_, _, rest) => CheckLast(rest, value)
    case LastEdge(_, next) => CheckNode(next, Some(value))
  }

  // ----- the search

  ghost function Last(sub: Sub): Node {
    match sub
    case Split(_, _, ge) => Last(ge)
    case FinalEdge(_, _, rest) => Last(rest)
    case JumpEdge(_, _, rest) => Last(rest)
    case LastEdge(_, next) => next
  }

  lemma {:induction false} CheckLastIs(sub: Sub, value: int)
    ensures CheckLast(sub, value) == CheckNode(Last(sub), Some(value))
  {
    match sub
    case Split(_, _, ge) => CheckLastIs(ge, value);
    case FinalEdge(_, _, rest) => CheckLastIs(rest, value);
    case JumpEdge(_, _, rest) => CheckLastIs(rest, value);
    case LastEdge(_, _) =>
  }

  function Known(have: bool, value: int): Option<int> {
    if have then Some(value) else None
  }

  /** Searches all that follows from a position; the unique value so far is passed in and out. */
  method FindUniqueValue(bytes: seq<Byte>, start: nat, have: bool, before: int, ghost node: Node)
    returns (r: bool, uniqueValue: int)
    requires Encodes(bytes, start, node) && node.WellFormed()
    ensures r == (CheckNode(node, Known(have, before)) != Differ)
    ensures r ==> CheckNode(node, Known(have, before)) == Same(uniqueValue)
    decreases Weight(node), 2
  {
    hide Encodes, EncodesSub, CheckEdges, CheckLast, ReadValue;
    var pos: nat, haveUniqueValue := start, have;
    uniqueValue := before;
    ghost var n := node;
    while true
      invariant Encodes(bytes, pos, n) && n.WellFormed() && Weight(n) <= Weight(node)
      invariant CheckNode(n, Known(haveUniqueValue, uniqueValue)) == CheckNode(node, Known(have, before))
      decreases Weight(n)
    {
      NodeAt(bytes, pos, n);
      var lead := bytes[pos];
      pos := pos + 1;
      if lead < MIN_LINEAR_MATCH {
        if lead == 0 {
          lead := bytes[pos];
          pos := pos + 1;
        }
        var found;
        found, pos, uniqueValue := FindUniqueValueFromBranch(bytes, pos, lead as int + 1, haveUniqueValue, uniqueValue,
                                                             n.sub, 0, 0x100);
        if !found {
          return false, uniqueValue;
        }
        CheckLastIs(n.sub, uniqueValue);
        haveUniqueValue := true;
        n := Last(n.sub);
      } else if lead < MIN_VALUE_LEAD {
        pos := pos + (lead as int - MIN_LINEAR_MATCH + 1);
        n := n.next;
      } else {
        var isFinal := lead % 2 == 1;
        var value := ReadValue(bytes, pos, lead / 2);
        if haveUniqueValue {
          if value != uniqueValue {
            return false, uniqueValue;
          }
        } else {
          uniqueValue := value;
          haveUniqueValue := true;
        }
        if isFinal {
          return true, uniqueValue;
        }
        pos := SkipValue(pos, lead);
        n := n.next;
      }
    }
  }

  /** All edges of a branch but the last one, whose position is returned. */
  method FindUniqueValueFromBranch(bytes: seq<Byte>, start: nat, size: nat, have: bool, before: int, ghost sub: Sub,
                                   ghost lo: int, ghost hi: int)
    returns (r: bool, pos: nat, uniqueValue: int)
    requires EncodesSub(bytes, start, sub) && sub.Ordered(lo, hi) && 2 <= size == sub.Size()
    ensures r == (CheckEdges(sub, Known(have, before)) != Differ)
    ensures r ==> CheckEdges(sub, Known(have, before)) == Same(uniqueValue)
    ensures r ==> Encodes(bytes, pos, Last(sub)) && Last(sub).WellFormed() && Weight(Last(sub)) < SubWeight(sub)
    decreases SubWeight(sub), 1
  {
    hide Encodes, EncodesSub, ReadDelta, CheckNode;
    var length := size;
    pos, uniqueValue := start, before;
    ghost var s: Sub, l: int := sub, lo;
    while length > MAX_BRANCH_LINEAR_SUB_NODE_LENGTH
      invariant EncodesSub(bytes, pos, s) && s.Ordered(l, hi) && 2 <= length == s.Size()
      invariant CheckEdges(s, Known(have, uniqueValue)) == CheckEdges(sub, Known(have, before))
      invariant Last(s) == Last(sub) && SubWeight(s) <= SubWeight(sub)
      decreases length
    {
      SplitEncoded(bytes, pos, s);
      pos := pos + 1;
      PositiveWeight(s.ge);
      PositiveWeight(s.less);
      var found, ignored;
      ghost var known := uniqueValue;
      found, ignored, uniqueValue :=
        FindUniqueValueFromBranch(bytes, JumpByDelta(bytes, pos), length / 2, have, uniqueValue, s.less, l, s.key);
      if !found {
        return false, pos, uniqueValue;
      }
      if have {
        SeenIsKept(s.less, Some(known));
      }
      length := length - length / 2;
      pos := SkipDelta(bytes, pos);
      l := s.key;
      s := s.ge;
    }
    r, pos, uniqueValue := FindUniqueValueFromList(bytes, pos, length, have, uniqueValue, s, l, hi);
  }

  lemma {:induction false} PositiveWeight(sub: Sub)
    ensures 0 < SubWeight(sub)
  {
    if sub.Split? {
      PositiveWeight(sub.less);
    }
  }

  /** A value that was found before is the one that all others are the same as. */
  lemma {:induction false} SeenIsKept(sub: Sub, seen: Option<int>)
    requires seen.Some?
    ensures CheckEdges(sub, seen) == Differ || CheckEdges(sub, seen) == Same(seen.value)
    decreases sub
  {
    match sub
    case Split(_, less, ge) => SeenIsKept(ge, seen);
    case FinalEdge(_, value, rest) => SeenIsKept(rest, Some(value));
    case JumpEdge(_, target, rest) =>
      NodeSeenIsKept(target, seen);
      SeenIsKept(rest, seen);
    case LastEdge(_, _) =>
  }

  lemma {:induction false} NodeSeenIsKept(node: Node, seen: Option<int>)
    requires seen.Some?
    ensures CheckNode(node, seen) == Differ || CheckNode(node, seen) == Same(seen.value)
    decreases node
  {
    match node
    case Final(_) =>
    case Value(value, next) => NodeSeenIsKept(next, Some(value));
    case Linear(_, next) => NodeSeenIsKept(next, seen);
    case Branch(sub) =>
      SeenIsKept(sub, seen);
      CheckLastIs(sub, seen.value);
      LastSeenIsKept(sub, seen.value);
  }

  lemma {:induction false} LastSeenIsKept(sub: Sub, value: int)
    ensures CheckLast(sub, value) == Differ || CheckLast(sub, value) == Same(value)
    decreases sub
  {
    match sub
    case Split(_, _, ge) => LastSeenIsKept(ge, value);
    case FinalEdge(_, _, rest) => LastSeenIsKept(rest, value);
    case JumpEdge(_, _, rest) => LastSeenIsKept(rest, value);
    case LastEdge(_, next) => NodeSeenIsKept(next, Some(value));
  }

  method FindUniqueValueFromList(bytes: seq<Byte>, start: nat, size: nat, have: bool, before: int, ghost sub: Sub,
                                 ghost lo: int, ghost hi: int)
    returns (r: bool, pos: nat, uniqueValue: int)
    requires EncodesSub(bytes, start, sub) && sub.Ordered(lo, hi) &&
             2 <= size == sub.Size() <= MAX_BRANCH_LINEAR_SUB_NODE_LENGTH
    ensures r == (CheckEdges(sub, Known(have, before)) != Differ)
    ensures r ==> CheckEdges(sub, Known(have, before)) == Same(uniqueValue)
    ensures r ==> Encodes(bytes, pos, Last(sub)) && Last(sub).WellFormed() && Weight(Last(sub)) < SubWeight(sub)
    decreases SubWeight(sub), 0
  {
    hide Encodes, EncodesSub, ReadValue, CheckNode;
    var length, haveUniqueValue := size, have;
    pos, uniqueValue := start, before;
    ghost var s: Sub, l: int := sub, lo;
    while length > 1
      invariant EncodesSub(bytes, pos, s) && s.Ordered(l, hi) &&
                1 <= length == s.Size() <= MAX_BRANCH_LINEAR_SUB_NODE_LENGTH
      invariant CheckEdges(s, Known(haveUniqueValue, uniqueValue)) == CheckEdges(sub, Known(have, before))
      invariant Last(s) == Last(sub) && SubWeight(s) <= SubWeight(sub) && (length < size ==> haveUniqueValue)
    {
      EdgeEncoded(bytes, pos, s);
      pos := pos + 1;
      var node := bytes[pos];
      pos := pos + 1;
      var isFinal := node % 2 == 1;
      var value := ReadValue(bytes, pos, node / 2);
      pos := SkipValue(pos, node);
      if isFinal {
        if haveUniqueValue {
          if value != uniqueValue {
            return false, pos, uniqueValue;
          }
        } else {
          uniqueValue := value;
          haveUniqueValue := true;
        }
      } else {
        var found;
        EncodedAt(bytes, pos + value, s.target);
        found, uniqueValue := FindUniqueValue(bytes, pos + value, haveUniqueValue, uniqueValue, s.target);
        if !found {
          return false, pos, uniqueValue;
        }
        haveUniqueValue := true;
      }
      length := length - 1;
      l := s.key + 1;
      s := s.rest;
    }
    LastEncoded(bytes, pos, s);
    pos := pos + 1;
    r := true;
  }

  lemma LastEncoded(bytes: seq<Byte>, pos: nat, sub: Sub)
    requires EncodesSub(bytes, pos, sub) && sub.Size() == 1
    ensures sub.LastEdge? && Encodes(bytes, pos + 1, Last(sub)) && Weight(Last(sub)) < SubWeight(sub)
  {
  }

  /** The documented query, from the state that a walk has come to. */
  method HasUniqueValue(trie: BytesTrie) returns (r: bool, uniqueValue: int)
    requires trie.Valid()
    ensures r == (trie.st != Stopped && CheckNode(Rest(trie.st), None) != Differ)
    ensures r ==> CheckNode(Rest(trie.st), None) == Same(uniqueValue)
  {
    if trie.pos == None {
      return false, 0;
    }
    r, uniqueValue := FindUniqueValue(trie.bytes, trie.pos.value + trie.remainingMatchLength + 1, false, 0,
                                      Rest(trie.st));
  }

  /** The node of a state, behind the rest of a linear-match node. */
  ghost function Rest(st: State): Node {
    match st
    case Stopped => Final(0)
    case InLinear(_, next) => next
    case At(node) => node
  }

  // ----- the shape of a trie

  /** No branch that can be reached has more than five edges. */
  ghost predicate Narrow(node: Node) {
    match node
    case Final(_) => true
    case Value(_, next) => Narrow(next)
    case Linear(_, next) => Narrow(next)
    case Branch(sub) => sub.Size() <= MAX_BRANCH_LINEAR_SUB_NODE_LENGTH && SubNarrow(sub)
  }

  ghost predicate SubNarrow(sub: Sub) {
    match sub
    case Split(_, less, ge) => SubNarrow(less) && SubNarrow(ge)
    case FinalEdge(_, _, rest) => SubNarrow(rest)
    case JumpEdge(_, target, rest) => Narrow(target) && SubNarrow(rest)
    case LastEdge(_, next) => Narrow(next)
  }

  /** Two tries differ only in their values. */
  ghost predicate SameShape(a: Node, b: Node) {
    match a
    case Final(_) => b.Final?
    case Value(_, next) => b.Value? && SameShape(next, b.next)
    case Linear(bytes, next) => b.Linear? && b.bytes == bytes && SameShape(next, b.next)
    case Branch(sub) => b.Branch? && SubSameShape(sub, b.sub)
  }

  ghost predicate SubSameShape(a: Sub, b: Sub) {
    match a
    case Split(key, less, ge) => b.Split? && b.key == key && SubSameShape(less, b.less) && SubSameShape(ge, b.ge)
    case FinalEdge(key, _, rest) => b.FinalEdge? && b.key == key && SubSameShape(rest, b.rest)
    case JumpEdge(key, target, rest) => b.JumpEdge? && b.key == key && SameShape(target, b.target) &&
      SubSameShape(rest, b.rest)
    case LastEdge(key, next) => b.LastEdge? && b.key == key && SameShape(next, b.next)
  }

  lemma {:induction false} ShapeDecides(a: Node, b: Node)
    requires SameShape(a, b)
    ensures a.WellFormed() == b.WellFormed() && Laid(a) == Laid(b) && Narrow(a) == Narrow(b)
    decreases a
  {
    match a
    case Final(_) =>
    case Value(_, next) => ShapeDecides(next, b.next);
    case Linear(_, next) => ShapeDecides(next, b.next);
    case Branch(sub) => SubShapeDecides(sub, b.sub, 0, 0x100);
  }

  lemma {:induction false} SubShapeDecides(a: Sub, b: Sub, lo: int, hi: int)
    requires SubSameShape(a, b)
    ensures a.Size() == b.Size() && a.Ordered(lo, hi) == b.Ordered(lo, hi)
    ensures SubLaid(a) == SubLaid(b) && SubNarrow(a) == SubNarrow(b)
    decreases a
  {
    match a
    case Split(key, less, ge) =>
      SubShapeDecides(less, b.less, lo, key);
      SubShapeDecides(ge, b.ge, key, hi);
    case FinalEdge(key, _, rest) => SubShapeDecides(rest, b.rest, key + 1, hi);
    case JumpEdge(key, target, rest) =>
      ShapeDecides(target, b.target);
      SubShapeDecides(rest, b.rest, key + 1, hi);
    case LastEdge(_, next) => ShapeDecides(next, b.next);
  }

  // ----- a negative answer is right

  /** If all strings have the same value, then the search finds it. */
  lemma {:induction false} UniformIsFound(node: Node, u: int, seen: Option<int>)
    requires node.WellFormed() && Laid(node) && Uniform(node, u) && (seen.Some? ==> seen.value == u)
    ensures CheckNode(node, seen) == Same(u)
    decreases node
  {
    match node
    case Final(_) =>
      assert node.LookUp([]).Some?;
    case Value(value, next) =>
      assert node.LookUp([]) == Some(value);
      ValueUniform(node, u);
      UniformIsFound(next, u, Some(value));
    case Linear(bytes, next) =>
      LinearUniform(bytes, next, u);
      UniformIsFound(next, u, seen);
    case Branch(sub) =>
      BranchUniform(sub, u);
      EdgesUniform(sub, 0, 0x100, u, seen);
      LastUniform(sub, 0, 0x100, u);
  }

  lemma ValueUniform(node: Node, u: int)
    requires node.WellFormed() && node.Value? && Uniform(node, u)
    ensures Uniform(node.next, u)
  {
    forall key | node.next.LookUp(key).Some?
      ensures node.next.LookUp(key) == Some(u)
    {
      NoEmptyKey(node.next);
      assert node.LookUp(key).Some?;
    }
  }

  lemma NoEmptyKey(node: Node)
    requires node.WellFormed() && !node.IsValue()
    ensures node.LookUp([]) == None
  {
  }

  lemma LinearUniform(bytes: seq<Byte>, next: Node, u: int)
    requires Uniform(Linear(bytes, next), u)
    ensures Uniform(next, u)
  {
    forall key | next.LookUp(key).Some?
      ensures next.LookUp(key) == Some(u)
    {
      assert (bytes + key)[|bytes|..] == key;
      assert Linear(bytes, next).LookUp(bytes + key).Some?;
    }
  }

  lemma BranchUniform(sub: Sub, u: int)
    requires Uniform(Branch(sub), u)
    ensures SubUniform(sub, u)
  {
    forall b, more | sub.LookUp(b, more).Some?
      ensures sub.LookUp(b, more) == Some(u)
    {
      assert ([b] + more)[1..] == more;
      assert Branch(sub).LookUp([b] + more).Some?;
    }
  }

  /** The parts of a uniform branch are uniform. */
  lemma SplitUniform(sub: Sub, lo: int, hi: int, u: int)
    requires sub.Split? && sub.Ordered(lo, hi) && SubUniform(sub, u)
    ensures SubUniform(sub.less, u) && SubUniform(sub.ge, u)
  {
    forall b, more | sub.less.LookUp(b, more).Some?
      ensures sub.less.LookUp(b, more) == Some(u)
    {
      if !sub.less.HasKey(b) {
        NoSuchKey(sub.less, b, more);
      }
      assert sub.LookUp(b, more).Some?;
    }
    forall b, more | sub.ge.LookUp(b, more).Some?
      ensures sub.ge.LookUp(b, more) == Some(u)
    {
      if !sub.ge.HasKey(b) {
        NoSuchKey(sub.ge, b, more);
      }
      KeysInRange(sub.ge, sub.key, hi, b);
      if sub.less.HasKey(b) {
        KeysInRange(sub.less, lo, sub.key, b);
      }
      assert sub.LookUp(b, more).Some?;
    }
  }

  lemma RestUniform(sub: Sub, lo: int, hi: int, u: int)
    requires (sub.FinalEdge? || sub.JumpEdge?) && sub.Ordered(lo, hi) && SubUniform(sub, u)
    ensures SubUniform(sub.rest, u)
  {
    forall b, more | sub.rest.LookUp(b, more).Some?
      ensures sub.rest.LookUp(b, more) == Some(u)
    {
      if !sub.rest.HasKey(b) {
        NoSuchKey(sub.rest, b, more);
      }
      KeysInRange(sub.rest, sub.key + 1, hi, b);
      assert sub.LookUp(b, more).Some?;
    }
  }

  lemma EdgeUniform(sub: Sub, u: int)
    requires SubUniform(sub, u)
    ensures sub.FinalEdge? ==> sub.value == u
    ensures sub.JumpEdge? ==> Uniform(sub.target, u)
    ensures sub.LastEdge? ==> Uniform(sub.next, u)
  {
    if sub.FinalEdge? {
      assert sub.LookUp(sub.key, []).Some?;
    }
    forall more | sub.JumpEdge? && sub.target.LookUp(more).Some?
      ensures sub.target.LookUp(more) == Some(u)
    {
      assert sub.LookUp(sub.key, more).Some?;
    }
    forall more | sub.LastEdge? && sub.next.LookUp(more).Some?
      ensures sub.next.LookUp(more) == Some(u)
    {
      assert sub.LookUp(sub.key, more).Some?;
    }
  }

  lemma {:induction false} EdgesUniform(sub: Sub, lo: int, hi: int, u: int, seen: Option<int>)
    requires sub.Ordered(lo, hi) && SubLaid(sub) && SubUniform(sub, u) && (seen.Some? ==> seen.value == u)
    requires 2 <= sub.Size() || seen.Some?
    ensures CheckEdges(sub, seen) == Same(u)
    decreases sub
  {
    EdgeUniform(sub, u);
    match sub
    case Split(key, less, ge) =>
      SplitUniform(sub, lo, hi, u);
      EdgesUniform(less, lo, key, u, seen);
      EdgesUniform(ge, key, hi, u, seen);
    case FinalEdge(key, _, rest) =>
      RestUniform(sub, lo, hi, u);
      EdgesUniform(rest, key + 1, hi, u, Some(u));
    case JumpEdge(key, target, rest) =>
      RestUniform(sub, lo, hi, u);
      UniformIsFound(target, u, seen);
      EdgesUniform(rest, key + 1, hi, u, Some(u));
    case LastEdge(_, _) =>
  }

  lemma {:induction false} LastUniform(sub: Sub, lo: int, hi: int, u: int)
    requires sub.Ordered(lo, hi) && SubLaid(sub) && SubUniform(sub, u)
    ensures CheckLast(sub, u) == Same(u)
    decreases sub
  {
    EdgeUniform(sub, u);
    match sub
    case Split(key, less, ge) =>
      SplitUniform(sub, lo, hi, u);
      LastUniform(ge, key, hi, u);
    case FinalEdge(key, _, rest) =>
      RestUniform(sub, lo, hi, u);
      LastUniform(rest, key + 1, hi, u);
    case JumpEdge(key, _, rest) =>
      RestUniform(sub, lo, hi, u);
      LastUniform(rest, key + 1, hi, u);
    case LastEdge(_, next) => UniformIsFound(next, u, Some(u));
  }

  // ----- a positive answer is right if all branches are narrow

  lemma {:induction false} FoundIsUniform(node: Node, u: int, seen: Option<int>)
    requires Narrow(node) && Laid(node) && CheckNode(node, seen) == Same(u)
    ensures Uniform(node, u) && (seen.Some? ==> seen.value == u)
    decreases node
  {
    match node
    case Final(_) =>
    case Value(value, next) => FoundIsUniform(next, u, Some(value));
    case Linear(bytes, next) => FoundIsUniform(next, u, seen);
    case Branch(sub) =>
      var v := CheckEdges(sub, seen).value;
      LastSeenIsKept(sub, v);
      FoundIsSubUniform(sub, u, seen);
      forall key | node.LookUp(key).Some?
        ensures node.LookUp(key) == Some(u)
      {
        assert sub.LookUp(key[0], key[1..]).Some?;
      }
  }

  lemma {:induction false} FoundIsSubUniform(sub: Sub, u: int, seen: Option<int>)
    requires SubNarrow(sub) && SubLaid(sub) && sub.Size() <= MAX_BRANCH_LINEAR_SUB_NODE_LENGTH
    requires CheckEdges(sub, seen) == Same(u) && CheckLast(sub, u) == Same(u)
    ensures SubUniform(sub, u) && (seen.Some? ==> seen.value == u)
    decreases sub
  {
    match sub
    case Split(_, _, _) =>
    case FinalEdge(_, value, rest) =>
      FoundIsSubUniform(rest, u, Some(value));
    case JumpEdge(_, target, rest) =>
      var v := CheckNode(target, seen).value;
      FoundIsSubUniform(rest, u, Some(v));
      FoundIsUniform(target, u, seen);
    case LastEdge(_, next) => FoundIsUniform(next, u, Some(u));
  }

  // ----- no positive answer can be relied on if a branch is wide

  /** The same trie with all values `v`. */
  ghost function Flat(node: Node, v: int): Node {
    match node
    case Final(_) => Final(v)
    case Value(_, next) => Value(v, Flat(next, v))
    case Linear(bytes, next) => Linear(bytes, Flat(next, v))
    case Branch(sub) => Branch(SubFlat(sub, v))
  }

  ghost function SubFlat(sub: Sub, v: int): Sub {
    match sub
    case Split(key, less, ge) => Split(key, SubFlat(less, v), SubFlat(ge, v))
    case FinalEdge(key, _, rest) => FinalEdge(key, v, SubFlat(rest, v))
    case JumpEdge(key, target, rest) => JumpEdge(key, Flat(target, v), SubFlat(rest, v))
    case LastEdge(key, next) => LastEdge(key, Flat(next, v))
  }

  /** The same trie with values 0, but 1 below the last edge of the less-than half of the first wide branch. */
  ghost function Marked(node: Node): Node {
    match node
    case Final(_) => Final(0)
    case Value(_, next) => Value(0, Marked(next))
    case Linear(bytes, next) => Linear(bytes, Marked(next))
    case Branch(sub) => Branch(SubMarked(sub))
  }

  ghost function SubMarked(sub: Sub): Sub {
    match sub
    case Split(key, less, ge) => Split(key, LastMarked(less), SubFlat(ge, 0))
    case FinalEdge(key, _, rest) => FinalEdge(key, 0, SubMarked(rest))
    case JumpEdge(key, target, rest) =>
      if Narrow(target) then JumpEdge(key, Flat(target, 0), SubMarked(rest))
        else JumpEdge(key, Marked(target), SubFlat(rest, 0))
    case LastEdge(key, next) => LastEdge(key, Marked(next))
  }

  ghost function LastMarked(sub: Sub): Sub {
    match sub
    case Split(key, less, ge) => Split(key, SubFlat(less, 0), LastMarked(ge))
    case FinalEdge(key, _, rest) => FinalEdge(key, 0, LastMarked(rest))
    case JumpEdge(key, target, rest) => JumpEdge(key, Flat(target, 0), LastMarked(rest))
    case LastEdge(key, next) => LastEdge(key, Flat(next, 1))
  }

  lemma {:induction false} FlatShape(node: Node, v: int)
    ensures SameShape(node, Flat(node, v))
    decreases node
  {
    match node
    case Final(_) =>
    case Value(_, next) => FlatShape(next, v);
    case Linear(_, next) => FlatShape(next, v);
    case Branch(sub) => SubFlatShape(sub, v);
  }

  lemma {:induction false} SubFlatShape(sub: Sub, v: int)
    ensures SubSameShape(sub, SubFlat(sub, v))
    decreases sub
  {
    match sub
    case Split(_, less, ge) =>
      SubFlatShape(less, v);
      SubFlatShape(ge, v);
    case FinalEdge(_, _, rest) => SubFlatShape(rest, v);
    case JumpEdge(_, target, rest) =>
      FlatShape(target, v);
      SubFlatShape(rest, v);
    case LastEdge(_, next) => FlatShape(next, v);
  }

  lemma {:induction false} LastMarkedShape(sub: Sub)
    ensures SubSameShape(sub, LastMarked(sub))
    decreases sub
  {
    match sub
    case Split(_, less, ge) =>
      SubFlatShape(less, 0);
      LastMarkedShape(ge);
    case FinalEdge(_, _, rest) => LastMarkedShape(rest);
    case JumpEdge(_, target, rest) =>
      FlatShape(target, 0);
      LastMarkedShape(rest);
    case LastEdge(_, next) => FlatShape(next, 1);
  }

  lemma {:induction false} MarkedShape(node: Node)
    ensures SameShape(node, Marked(node))
    decreases node
  {
    match node
    case Final(_) =>
    case Value(_, next) => MarkedShape(next);
    case Linear(_, next) => MarkedShape(next);
    case Branch(sub) => SubMarkedShape(sub);
  }

  lemma {:induction false} SubMarkedShape(sub: Sub)
    ensures SubSameShape(sub, SubMarked(sub))
    decreases sub
  {
    match sub
    case Split(_, less, ge) =>
      LastMarkedShape(less);
      SubFlatShape(ge, 0);
    case FinalEdge(_, _, rest) => SubMarkedShape(rest);
    case JumpEdge(_, target, rest) =>
      FlatShape(target, 0);
      MarkedShape(target);
      SubMarkedShape(rest);
      SubFlatShape(rest, 0);
    case LastEdge(_, next) => MarkedShape(next);
  }

  lemma {:induction false} FlatIsUniform(node: Node, v: int)
    ensures Uniform(Flat(node, v), v)
    decreases node
  {
    match node
    case Final(_) =>
    case Value(_, next) => FlatIsUniform(next, v);
    case Linear(_, next) => FlatIsUniform(next, v);
    case Branch(sub) => SubFlatIsUniform(sub, v);
  }

  lemma {:induction false} SubFlatIsUniform(sub: Sub, v: int)
    ensures SubUniform(SubFlat(sub, v), v)
    decreases sub
  {
    match sub
    case Split(_, less, ge) =>
      SubFlatIsUniform(less, v);
      SubFlatIsUniform(ge, v);
    case FinalEdge(_, _, rest) => SubFlatIsUniform(rest, v);
    case JumpEdge(_, target, rest) =>
      FlatIsUniform(target, v);
      SubFlatIsUniform(rest, v);
    case LastEdge(_, next) => FlatIsUniform(next, v);
  }

  lemma SubFlatIsFound(sub: Sub, lo: int, hi: int, seen: Option<int>)
    requires sub.Ordered(lo, hi) && SubLaid(sub) && (seen.Some? ==> seen.value == 0) && (2 <= sub.Size() || seen.Some?)
    ensures CheckEdges(SubFlat(sub, 0), seen) == Same(0) && CheckLast(SubFlat(sub, 0), 0) == Same(0)
  {
    SubFlatShape(sub, 0);
    SubShapeDecides(sub, SubFlat(sub, 0), lo, hi);
    SubFlatIsUniform(sub, 0);
    EdgesUniform(SubFlat(sub, 0), lo, hi, 0, seen);
    LastUniform(SubFlat(sub, 0), lo, hi, 0);
  }

  lemma FlatIsFound(node: Node, seen: Option<int>)
    requires node.WellFormed() && Laid(node) && (seen.Some? ==> seen.value == 0)
    ensures CheckNode(Flat(node, 0), seen) == Same(0)
  {
    FlatShape(node, 0);
    ShapeDecides(node, Flat(node, 0));
    FlatIsUniform(node, 0);
    UniformIsFound(Flat(node, 0), 0, seen);
  }

  /** The search does not see the mark. */
  lemma {:induction false} LastMarkIsMissed(sub: Sub, lo: int, hi: int, seen: Option<int>)
    requires sub.Ordered(lo, hi) && SubLaid(sub) && (seen.Some? ==> seen.value == 0) && (2 <= sub.Size() || seen.Some?)
    ensures CheckEdges(LastMarked(sub), seen) == Same(0)
    decreases sub
  {
    match sub
    case Split(key, less, ge) =>
      SubFlatIsFound(less, lo, key, seen);
      LastMarkIsMissed(ge, key, hi, seen);
    case FinalEdge(key, _, rest) => LastMarkIsMissed(rest, key + 1, hi, Some(0));
    case JumpEdge(key, target, rest) =>
      FlatIsFound(target, seen);
      LastMarkIsMissed(rest, key + 1, hi, Some(0));
    case LastEdge(_, _) =>
  }

  lemma {:induction false} MarkIsMissed(node: Node, seen: Option<int>)
    requires node.WellFormed() && Laid(node) && (seen.Some? ==> seen.value == 0)
    ensures CheckNode(Marked(node), seen) == Same(0)
    decreases node
  {
    match node
    case Final(_) =>
    case Value(_, next) => MarkIsMissed(next, Some(0));
    case Linear(_, next) => MarkIsMissed(next, seen);
    case Branch(sub) => SubMarkIsMissed(sub, 0, 0x100, seen);
  }

  lemma {:induction false} SubMarkIsMissed(sub: Sub, lo: int, hi: int, seen: Option<int>)
    requires sub.Ordered(lo, hi) && SubLaid(sub) && (seen.Some? ==> seen.value == 0) && (2 <= sub.Size() || seen.Some?)
    ensures CheckEdges(SubMarked(sub), seen) == Same(0) && CheckLast(SubMarked(sub), 0) == Same(0)
    decreases sub
  {
    match sub
    case Split(key, less, ge) =>
      LastMarkIsMissed(less, lo, key, seen);
      SubFlatIsFound(ge, key, hi, seen);
    case FinalEdge(key, _, rest) => SubMarkIsMissed(rest, key + 1, hi, Some(0));
    case JumpEdge(key, target, rest) =>
      FlatIsFound(target, seen);
      MarkIsMissed(target, seen);
      SubMarkIsMissed(rest, key + 1, hi, Some(0));
      SubFlatIsFound(rest, key + 1, hi, Some(0));
    case LastEdge(_, next) => MarkIsMissed(next, Some(0));
  }

  /** But it is there. */
  lemma FlatKey(node: Node, v: int) returns (key: seq<Byte>)
    requires node.WellFormed()
    ensures Flat(node, v).LookUp(key) == Some(v)
  {
    FlatShape(node, v);
    ShapeDecides(node, Flat(node, v));
    FlatIsUniform(node, v);
    key := SomeKey(Flat(node, v));
  }

  lemma LaterKey(sub: Sub, lo: int, hi: int, b: Byte, more: seq<Byte>)
    requires sub.Ordered(lo, hi) && sub.LookUp(b, more).Some?
    ensures lo <= b < hi && sub.HasKey(b)
  {
    if !sub.HasKey(b) {
      NoSuchKey(sub, b, more);
    }
    KeysInRange(sub, lo, hi, b);
  }

  lemma {:induction false} LastMarkedKey(sub: Sub, lo: int, hi: int) returns (b: Byte, more: seq<Byte>)
    requires sub.Ordered(lo, hi)
    ensures LastMarked(sub).LookUp(b, more) == Some(1)
    decreases sub
  {
    LastMarkedShape(sub);
    SubShapeDecides(sub, LastMarked(sub), lo, hi);
    match sub
    case Split(key, less, ge) =>
      b, more := LastMarkedKey(ge, key, hi);
      LaterKey(LastMarked(ge), key, hi, b, more);
      if SubFlat(less, 0).HasKey(b) {
        KeysInRange(SubFlat(less, 0), lo, key, b);
      }
    case FinalEdge(key, _, rest) =>
      b, more := LastMarkedKey(rest, key + 1, hi);
      LaterKey(LastMarked(rest), key + 1, hi, b, more);
    case JumpEdge(key, _, rest) =>
      b, more := LastMarkedKey(rest, key + 1, hi);
      LaterKey(LastMarked(rest), key + 1, hi, b, more);
    case LastEdge(key, next) =>
      b := key;
      more := FlatKey(next, 1);
  }

  lemma {:induction false} MarkedKey(node: Node) returns (key: seq<Byte>)
    requires node.WellFormed() && Laid(node) && !Narrow(node)
    ensures Marked(node).LookUp(key) == Some(1)
    decreases node
  {
    MarkedShape(node);
    ShapeDecides(node, Marked(node));
    match node
    case Value(_, next) =>
      key := MarkedKey(next);
      NoEmptyKey(Marked(next));
    case Linear(bytes, next) =>
      var rest := MarkedKey(next);
      key := bytes + rest;
      assert key[|bytes|..] == rest;
    case Branch(sub) =>
      var b, more := SubMarkedKey(sub, 0, 0x100);
      key := [b] + more;
      assert key[1..] == more;
  }

  lemma {:induction false} SubMarkedKey(sub: Sub, lo: int, hi: int) returns (b: Byte, more: seq<Byte>)
    requires sub.Ordered(lo, hi) && SubLaid(sub) && (MAX_BRANCH_LINEAR_SUB_NODE_LENGTH < sub.Size() || !SubNarrow(sub))
    ensures SubMarked(sub).LookUp(b, more) == Some(1)
    decreases sub
  {
    SubMarkedShape(sub);
    SubShapeDecides(sub, SubMarked(sub), lo, hi);
    match sub
    case Split(key, less, ge) =>
      b, more := LastMarkedKey(less, lo, key);
      LaterKey(LastMarked(less), lo, key, b, more);
    case FinalEdge(key, _, rest) =>
      b, more := SubMarkedKey(rest, key + 1, hi);
      LaterKey(SubMarked(rest), key + 1, hi, b, more);
    case JumpEdge(key, target, rest) =>
      if Narrow(target) {
        b, more := SubMarkedKey(rest, key + 1, hi);
        LaterKey(SubMarked(rest), key + 1, hi, b, more);
      } else {
        b := key;
        more := MarkedKey(target);
      }
    case LastEdge(key, next) =>
      b := key;
      more := MarkedKey(next);
  }

  /** A value that was found is the value of some string. */
  lemma {:induction false} FoundIsThere(node: Node, u: int, seen: Option<int>) returns (key: seq<Byte>)
    requires node.WellFormed() && CheckNode(node, seen) == Same(u)
    ensures node.LookUp(key) == Some(u)
    decreases node
  {
    match node
    case Final(_) => key := [];
    case Value(value, next) =>
      NodeSeenIsKept(next, Some(value));
      key := [];
    case Linear(bytes, next) =>
      var rest := FoundIsThere(next, u, seen);
      key := bytes + rest;
      assert key[|bytes|..] == rest;
    case Branch(sub) =>
      var v := CheckEdges(sub, seen).value;
      LastSeenIsKept(sub, v);
      var b, more := LastIsThere(sub, 0, 0x100, v);
      key := [b] + more;
      assert key[1..] == more;
  }

  lemma {:induction false} LastIsThere(sub: Sub, lo: int, hi: int, u: int) returns (b: Byte, more: seq<Byte>)
    requires sub.Ordered(lo, hi) && CheckLast(sub, u) == Same(u)
    ensures sub.LookUp(b, more) == Some(u)
    decreases sub
  {
    match sub
    case Split(key, less, ge) =>
      b, more := LastIsThere(ge, key, hi, u);
      LaterKey(ge, key, hi, b, more);
      if less.HasKey(b) {
        KeysInRange(less, lo, key, b);
      }
    case FinalEdge(key, _, rest) =>
      b, more := LastIsThere(rest, key + 1, hi, u);
      LaterKey(rest, key + 1, hi, b, more);
    case JumpEdge(key, _, rest) =>
      b, more := LastIsThere(rest, key + 1, hi, u);
      LaterKey(rest, key + 1, hi, b, more);
    case LastEdge(key, next) =>
      b := key;
      more := FoundIsThere(next, u, Some(u));
  }

  /** The answer of the search is what is documented. */
  ghost predicate Right(node: Node) {
    CheckNode(node, None) != Differ <==> AllSame(node)
  }

  /** Whatever the trie: the answer that values differ is right. */
  lemma NegativeIsRight(node: Node)
    requires node.WellFormed() && Laid(node) && CheckNode(node, None) == Differ
    ensures !AllSame(node)
  {
    if u :| Uniform(node, u) {
      UniformIsFound(node, u, None);
    }
  }

  /**
   The answer is right for all values that a trie of this shape can have, if and only if no
   branch of it has more than five edges.
   */
  lemma RightIfAndOnlyIfNarrow(node: Node)
    requires node.WellFormed() && Laid(node)
    ensures Narrow(node) <==> forall other :: SameShape(node, other) ==> Right(other)
  {
    if Narrow(node) {
      forall other | SameShape(node, other)
        ensures Right(other)
      {
        ShapeDecides(node, other);
        if CheckNode(other, None) == Differ {
          NegativeIsRight(other);
        } else {
          FoundIsUniform(other, CheckNode(other, None).value, None);
        }
      }
    } else {
      var other := Marked(node);
      MarkedShape(node);
      ShapeDecides(node, other);
      MarkIsMissed(node, None);
      var one := MarkedKey(node);
      var zero := FoundIsThere(other, 0, None);
      assert SameShape(node, other) && !Right(other);
    }
  }
}

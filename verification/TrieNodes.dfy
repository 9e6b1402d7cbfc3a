/**
 Tries as trees: what a serialized trie means, independent of its bytes. A trie maps byte
 strings to values; walking it one byte at a time leads through states that stand for the
 strings that may still follow.
 */
module TrieNodes {
  import opened Common

  const MAX_LINEAR_MATCH_LENGTH := 0x10

  datatype Node =
    | Final(value: int)                              // the value of the string so far, which is no prefix of another
    | Value(value: int, next: Node)                  // the value of the string so far, which is
    | Linear(bytes: seq<Byte>, next: Node)           // bytes that all strings continue with
    | Branch(sub: Sub)
  {
    predicate IsValue() {
      Final? || Value?
    }

    ghost predicate WellFormed() {
      match this
      case Final(_) => true
      case Value(_, next) => !next.IsValue() && next.WellFormed()
      case Linear(bytes, next) => 1 <= |bytes| <= MAX_LINEAR_MATCH_LENGTH && next.WellFormed()
      case Branch(sub) => 2 <= sub.Size() && sub.Ordered(0, 0x100)
    }

    /** The value of a byte string. */
    ghost function LookUp(key: seq<Byte>): Option<int> {
      match this
      case Final(value) => if key == [] then Some(value) else None
      case Value(value, next) => if key == [] then Some(value) else next.LookUp(key)
      case Linear(bytes, next) => if bytes <= key then next.LookUp(key[|bytes|..]) else None
      case Branch(sub) => if key == [] then None else sub.LookUp(key[0], key[1..])
    }
  }

  /** The edges of a branch node: a binary search tree with lists of edges as leaves. */
  datatype Sub =
    | Split(key: Byte, less: Sub, ge: Sub)           // edges below `key`, and from `key` on
    | FinalEdge(key: Byte, value: int, rest: Sub)
    | JumpEdge(key: Byte, target: Node, rest: Sub)
    | LastEdge(key: Byte, next: Node)
  {
    ghost function Size(): (n: nat)
      ensures 1 <= n
    {
      match this
      case Split(_, less, ge) => less.Size() + ge.Size()
      case FinalEdge(_, _, rest) => 1 + rest.Size()
      case JumpEdge(_, _, rest) => 1 + rest.Size()
      case LastEdge(_, _) => 1
    }

    /** The keys of the edges are ascending and lie in `lo`..`hi` - 1. */
    ghost predicate Ordered(lo: int, hi: int) {
      match this
      case Split(key, less, ge) => lo <= key <= hi && less.Ordered(lo, key) && ge.Ordered(key, hi)
      case FinalEdge(key, _, rest) => lo <= key < hi && rest.Ordered(key + 1, hi)
      case JumpEdge(key, target, rest) => lo <= key < hi && target.WellFormed() && rest.Ordered(key + 1, hi)
      case LastEdge(key, next) => lo <= key < hi && next.WellFormed()
    }

    ghost predicate HasKey(b: Byte) {
      match this
      case Split(_, less, ge) => less.HasKey(b) || ge.HasKey(b)
      case FinalEdge(key, _, rest) => b == key || rest.HasKey(b)
      case JumpEdge(key, _, rest) => b == key || rest.HasKey(b)
      case LastEdge(key, _) => b == key
    }

    /** The value of the string that begins with `b` and goes on with `more`, among all edges. */
    ghost function LookUp(b: Byte, more: seq<Byte>): Option<int> {
      match this
      case Split(_, less, ge) => if less.HasKey(b) then less.LookUp(b, more) else ge.LookUp(b, more)
      case FinalEdge(key, value, rest) =>
        if b != key then rest.LookUp(b, more) else if more == [] then Some(value) else None
      case JumpEdge(key, target, rest) => if b != key then rest.LookUp(b, more) else target.LookUp(more)
      case LastEdge(key, next) => if b != key then None else next.LookUp(more)
    }
  }

  /** Where a walk stands: the strings that may still follow, with their values. */
  datatype State =
    | Stopped                                        // no string continues like this
    | InLinear(bytes: seq<Byte>, next: Node)
    | At(node: Node)
  {
    ghost predicate WellFormed() {
      match this
      case Stopped => true
      case InLinear(bytes, next) => 1 <= |bytes| < MAX_LINEAR_MATCH_LENGTH && next.WellFormed()
      case At(node) => node.WellFormed()
    }

    ghost function LookUp(key: seq<Byte>): Option<int> {
      match this
      case Stopped => None
      case InLinear(bytes, next) => Linear(bytes, next).LookUp(key)
      case At(node) => node.LookUp(key)
    }
  }

  datatype Result = NoMatch | NoValue | FinalValue | IntermediateValue

  /** The size of a node with all that follows it. */
  ghost function Weight(node: Node): nat {
    match node
    case Final(_) => 1
    case Value(_, next) => 1 + Weight(next)
    case Linear(_, next) => 1 + Weight(next)
    case Branch(sub) => 1 + SubWeight(sub)
  }

  ghost function SubWeight(sub: Sub): nat {
    match sub
    case Split(_, less, ge) => SubWeight(less) + SubWeight(ge)
    case FinalEdge(_, _, rest) => 1 + SubWeight(rest)
    case JumpEdge(_, target, rest) => 1 + Weight(target) + SubWeight(rest)
    case LastEdge(_, next) => 1 + Weight(next)
  }

  // ----- walking

  ghost function StepLinear(bytes: seq<Byte>, next: Node, b: Byte): State
    requires bytes != []
  {
    if b != bytes[0] then Stopped else if |bytes| == 1 then At(next) else InLinear(bytes[1..], next)
  }

  /** Follows one edge, by binary search and then along a list. */
  ghost function StepSub(sub: Sub, b: Byte): State {
    match sub
    case Split(key, less, ge) => if b < key then StepSub(less, b) else StepSub(ge, b)
    case FinalEdge(key, value, rest) => if b == key then At(Final(value)) else StepSub(rest, b)
    case JumpEdge(key, target, rest) => if b == key then At(target) else StepSub(rest, b)
    case LastEdge(key, next) => if b == key then At(next) else Stopped
  }

  ghost function StepNode(node: Node, b: Byte): State {
    match node
    case Final(_) => Stopped
    case Value(_, next) => StepNode(next, b)
    case Linear(bytes, next) => if bytes == [] then Stopped else StepLinear(bytes, next, b)
    case Branch(sub) => StepSub(sub, b)
  }

  ghost function Step(st: State, b: Byte): State {
    match st
    case Stopped => Stopped
    case InLinear(bytes, next) => if bytes == [] then Stopped else StepLinear(bytes, next, b)
    case At(node) => StepNode(node, b)
  }

  /** Feeding a string one byte at a time. */
  ghost function Walk(st: State, s: seq<Byte>, n: nat): State
    requires n <= |s|
  {
    if n == 0 then st else Step(Walk(st, s, n - 1), s[n - 1])
  }

  /** What a walk reports. */
  ghost function Report(st: State): Result {
    match st
    case Stopped => NoMatch
    case InLinear(_, _) => NoValue
    case At(node) => if node.Final? then FinalValue else if node.Value? then IntermediateValue else NoValue
  }

  lemma {:induction false} KeysInRange(sub: Sub, lo: int, hi: int, b: Byte)
    requires sub.Ordered(lo, hi) && sub.HasKey(b)
    ensures lo <= b < hi
  {
    match sub
    case Split(key, less, ge) =>
      if less.HasKey(b) {
        KeysInRange(less, lo, key, b);
      } else {
        KeysInRange(ge, key, hi, b);
      }
    case FinalEdge(key, _, rest) =>
      if b != key {
        KeysInRange(rest, key + 1, hi, b);
      }
    case JumpEdge(key, _, rest) =>
      if b != key {
        KeysInRange(rest, key + 1, hi, b);
      }
    case LastEdge(_, _) =>
  }

  /** A key that no edge has is not found. */
  lemma {:induction false} NoSuchKey(sub: Sub, b: Byte, more: seq<Byte>)
    requires !sub.HasKey(b)
    ensures sub.LookUp(b, more) == None
  {
    match sub
    case Split(_, less, ge) => NoSuchKey(ge, b, more);
    case FinalEdge(_, _, rest) => NoSuchKey(rest, b, more);
    case JumpEdge(_, _, rest) => NoSuchKey(rest, b, more);
    case LastEdge(_, _) =>
  }

  /** Binary search and list agree with a search among all edges. */
  lemma {:induction false} StepSubIsLookUp(sub: Sub, lo: int, hi: int, b: Byte, more: seq<Byte>)
    requires sub.Ordered(lo, hi)
    ensures StepSub(sub, b).WellFormed() && StepSub(sub, b).LookUp(more) == sub.LookUp(b, more)
    ensures StepSub(sub, b) == Stopped <==> !sub.HasKey(b)
  {
    match sub
    case Split(key, less, ge) =>
      if less.HasKey(b) {
        KeysInRange(less, lo, key, b);
      }
      if ge.HasKey(b) {
        KeysInRange(ge, key, hi, b);
      }
      if b < key {
        StepSubIsLookUp(less, lo, key, b, more);
        if !less.HasKey(b) {
          NoSuchKey(less, b, more);
          NoSuchKey(ge, b, more);
        }
      } else {
        StepSubIsLookUp(ge, key, hi, b, more);
      }
    case FinalEdge(key, _, rest) => StepSubIsLookUp(rest, key + 1, hi, b, more);
    case JumpEdge(key, _, rest) => StepSubIsLookUp(rest, key + 1, hi, b, more);
    case LastEdge(_, _) =>
  }

  lemma StepLinearIsLookUp(bytes: seq<Byte>, next: Node, b: Byte, more: seq<Byte>)
    requires 1 <= |bytes| <= MAX_LINEAR_MATCH_LENGTH && next.WellFormed()
    ensures StepLinear(bytes, next, b).WellFormed()
    ensures StepLinear(bytes, next, b).LookUp(more) == Linear(bytes, next).LookUp([b] + more)
  {
    var key := [b] + more;
    assert key[1..] == more;
    if b == bytes[0] {
      assert bytes == [b] + bytes[1..];
      assert bytes <= key <==> bytes[1..] <= more;
      if bytes <= key {
        assert key[|bytes|..] == more[|bytes| - 1..];
      }
    }
  }

  /** One step leaves exactly the strings that begin with the byte, without it. */
  lemma {:induction false} StepNodeIsLookUp(node: Node, b: Byte, more: seq<Byte>)
    requires node.WellFormed()
    ensures StepNode(node, b).WellFormed() && StepNode(node, b).LookUp(more) == node.LookUp([b] + more)
  {
    match node
    case Final(_) =>
    case Value(_, next) => StepNodeIsLookUp(next, b, more);
    case Linear(bytes, next) => StepLinearIsLookUp(bytes, next, b, more);
    case Branch(sub) =>
      assert ([b] + more)[1..] == more;
      StepSubIsLookUp(sub, 0, 0x100, b, more);
  }

  lemma StepIsLookUp(st: State, b: Byte, more: seq<Byte>)
    requires st.WellFormed()
    ensures Step(st, b).WellFormed() && Step(st, b).LookUp(more) == st.LookUp([b] + more)
  {
    match st
    case Stopped =>
    case InLinear(bytes, next) => StepLinearIsLookUp(bytes, next, b, more);
    case At(node) => StepNodeIsLookUp(node, b, more);
  }

  /** After walking a prefix, what remains is what follows it in the trie. */
  lemma {:induction false} WalkIsLookUp(st: State, s: seq<Byte>, n: nat, more: seq<Byte>)
    requires st.WellFormed() && n <= |s|
    ensures Walk(st, s, n).WellFormed() && Walk(st, s, n).LookUp(more) == st.LookUp(s[..n] + more)
    decreases n
  {
    if n == 0 {
      assert s[..0] + more == more;
    } else {
      WalkIsLookUp(st, s, n - 1, [s[n - 1]] + more);
      StepIsLookUp(Walk(st, s, n - 1), s[n - 1], more);
      assert s[..n - 1] + ([s[n - 1]] + more) == s[..n] + more;
    }
  }

  // ----- what a report means

  /** Some string of a trie. */
  lemma {:induction false} SomeKey(node: Node) returns (key: seq<Byte>)
    requires node.WellFormed()
    ensures node.LookUp(key).Some? && (!node.IsValue() ==> key != [])
    decreases node
  {
    match node
    case Final(_) => key := [];
    case Value(_, next) => key := SomeKey(next);
    case Linear(bytes, next) =>
      var rest := SomeKey(next);
      key := bytes + rest;
      assert key[|bytes|..] == rest;
    case Branch(sub) =>
      var b, rest := SomeSubKey(sub, 0, 0x100);
      key := [b] + rest;
      assert key[1..] == rest;
  }

  lemma {:induction false} SomeSubKey(sub: Sub, lo: int, hi: int) returns (b: Byte, more: seq<Byte>)
    requires sub.Ordered(lo, hi)
    ensures sub.HasKey(b) && sub.LookUp(b, more).Some?
    decreases sub
  {
    match sub
    case Split(key, less, ge) => b, more := SomeSubKey(less, lo, key);
    case FinalEdge(key, _, rest) => b, more := key, [];
    case JumpEdge(key, target, rest) =>
      more := SomeKey(target);
      b := key;
    case LastEdge(key, next) =>
      more := SomeKey(next);
      b := key;
  }

  /** The four reports tell apart whether the string so far is a key, and whether it is a proper prefix of one. */
  lemma ReportIsRight(st: State)
    requires st.WellFormed()
    ensures Report(st) == NoMatch <==> forall key :: st.LookUp(key) == None
    ensures Report(st) == FinalValue <==> st.LookUp([]).Some? && forall key :: key != [] ==> st.LookUp(key) == None
    ensures Report(st) == IntermediateValue <==> st.LookUp([]).Some? && exists key :: key != [] && st.LookUp(key).Some?
    ensures Report(st) == NoValue <==> st.LookUp([]) == None && exists key :: st.LookUp(key).Some?
  {
    match st
    case Stopped =>
    case InLinear(bytes, next) =>
      var rest := SomeKey(Linear(bytes, next));
      assert st.LookUp(rest).Some?;
    case At(node) =>
      var key := SomeKey(node);
      assert st.LookUp(key).Some?;
      if node.Value? {
        var longer := SomeKey(node.next);
        assert st.LookUp(longer).Some?;
      }
  }

  /**
   After feeding string `s`, one byte at a time, to a walk from the root: no match if no key
   has that prefix, a final value if it is a key and no other key continues it, an
   intermediate value if it is a key and a proper prefix of another one, no value otherwise.
   */
  lemma WalkReports(root: Node, s: seq<Byte>)
    requires root.WellFormed()
    ensures var st := Walk(At(root), s, |s|);
            (Report(st) == NoMatch <==> forall more :: root.LookUp(s + more) == None) &&
            (Report(st) == FinalValue <==>
             root.LookUp(s).Some? && forall more :: more != [] ==> root.LookUp(s + more) == None) &&
            (Report(st) == IntermediateValue <==>
             root.LookUp(s).Some? && exists more :: more != [] && root.LookUp(s + more).Some?) &&
            (Report(st) == NoValue <==> root.LookUp(s) == None && exists more :: root.LookUp(s + more).Some?)
  {
    hide Report;
    var st := Walk(At(root), s, |s|);
    assert s[..|s|] == s;
    forall more
      ensures st.LookUp(more) == root.LookUp(s + more)
    {
      WalkIsLookUp(At(root), s, |s|, more);
    }
    assert s + [] == s;
    WalkIsLookUp(At(root), s, |s|, []);
    ReportIsRight(st);
  }
}

/** Iterating over the contents of a serialized trie, `icu/common/bytestrieiterator.cpp`. */
module TrieIterators {
  import opened Common
  import opened TrieNodes
  import opened TrieBytes
  import opened TrieEntries
  import opened BytesTries

  /** A stack entry: a position in the trie bytes, and the number of edges left there with the string length. */
  datatype Saved = Saved(offset: nat, packed: nat)

  /** Two numbers in one integer; the string length takes the lower 16 bits. */
  function Pack(length: nat, strLength: nat): nat
    requires strLength <= 0xffff
  {
    length * 0x1_0000 + strLength
  }

  /** What a stack entry stands for: the edges left of a branch node that is reached by a string. */
  datatype Pending = Pending(sub: Sub, prefix: seq<Byte>, lo: int, hi: int)

  /** Where the iterator stands itself. */
  datatype Cursor = Nowhere | Cut | OnNode(node: Node)

  /** Branch nodes are reached by strings whose length can be packed. */
  ghost predicate Fits(node: Node, len: nat, max: int) {
    match node
    case Final(_) => true
    case Value(_, next) => Fits(next, len, max)
    case Linear(bytes, next) => Fits(next, len + |bytes|, max)
    case Branch(sub) => 0 < max <= len || (len <= 0xffff && SubFits(sub, len, max))
  }

  ghost predicate SubFits(sub: Sub, len: nat, max: int) {
    match sub
    case Split(_, less, ge) => SubFits(less, len, max) && SubFits(ge, len, max)
    case FinalEdge(_, _, rest) => SubFits(rest, len, max)
    case JumpEdge(_, target, rest) => Fits(target, len + 1, max) && SubFits(rest, len, max)
    case LastEdge(_, next) => Fits(next, len + 1, max)
  }

  /** A limit of up to 0x10000 bytes is enough. */
  lemma {:induction false} LimitFits(node: Node, len: nat, max: int)
    requires 0 < max <= 0x1_0000
    ensures Fits(node, len, max)
    decreases node
  {
    match node
    case Final(_) =>
    case Value(_, next) => LimitFits(next, len, max);
    case Linear(bytes, next) => LimitFits(next, len + |bytes|, max);
    case Branch(sub) =>
      if len < max {
        LimitFitsSub(sub, len, max);
      }
  }

  lemma {:induction false} LimitFitsSub(sub: Sub, len: nat, max: int)
    requires 0 < max <= 0x1_0000
    ensures SubFits(sub, len, max)
    decreases sub
  {
    match sub
    case Split(_, less, ge) =>
      LimitFitsSub(less, len, max);
      LimitFitsSub(ge, len, max);
    case FinalEdge(_, _, rest) => LimitFitsSub(rest, len, max);
    case JumpEdge(_, target, rest) =>
      LimitFits(target, len + 1, max);
      LimitFitsSub(rest, len, max);
    case LastEdge(_, next) => LimitFits(next, len + 1, max);
  }

  /** So is a trie without keys of more than 0x10000 bytes. */
  lemma {:induction false} ShortKeysFit(node: Node, len: nat, max: int)
    requires node.WellFormed() && forall key :: node.LookUp(key).Some? ==> len + |key| <= 0x1_0000
    ensures Fits(node, len, max)
    decreases node
  {
    match node
    case Final(_) =>
    case Value(_, next) =>
      forall key | next.LookUp(key).Some?
        ensures len + |key| <= 0x1_0000
      {
        var longer := SomeKey(next);
        assert node.LookUp(longer) == next.LookUp(longer);
        if key != [] {
          assert node.LookUp(key) == next.LookUp(key);
        }
      }
      ShortKeysFit(next, len, max);
    case Linear(bytes, next) =>
      forall key | next.LookUp(key).Some?
        ensures len + |bytes| + |key| <= 0x1_0000
      {
        assert (bytes + key)[|bytes|..] == key;
        assert node.LookUp(bytes + key).Some?;
      }
      ShortKeysFit(next, len + |bytes|, max);
    case Branch(sub) =>
      var first := SomeKey(node);
      assert node.LookUp(first).Some?;
      forall b, more | sub.LookUp(b, more).Some?
        ensures len + 1 + |more| <= 0x1_0000
      {
        assert ([b] + more)[1..] == more;
        assert node.LookUp([b] + more).Some?;
      }
      ShortKeysFitSub(sub, 0, 0x100, len, max);
  }

  lemma {:induction false} ShortKeysFitSub(sub: Sub, lo: int, hi: int, len: nat, max: int)
    requires sub.Ordered(lo, hi) && forall b, more :: sub.LookUp(b, more).Some? ==> len + 1 + |more| <= 0x1_0000
    ensures SubFits(sub, len, max)
    decreases sub
  {
    match sub
    case Split(key, less, ge) =>
      forall b, more | less.LookUp(b, more).Some?
        ensures len + 1 + |more| <= 0x1_0000
      {
        if !less.HasKey(b) {
          NoSuchKey(less, b, more);
        }
        assert sub.LookUp(b, more).Some?;
      }
      ShortKeysFitSub(less, lo, key, len, max);
      forall b, more | ge.LookUp(b, more).Some?
        ensures len + 1 + |more| <= 0x1_0000
      {
        if !ge.HasKey(b) {
          NoSuchKey(ge, b, more);
        }
        KeysInRange(ge, key, hi, b);
        if less.HasKey(b) {
          KeysInRange(less, lo, key, b);
        }
        assert sub.LookUp(b, more).Some?;
      }
      ShortKeysFitSub(ge, key, hi, len, max);
    case FinalEdge(key, _, rest) =>
      ShortKeysFitRest(sub, rest, key, hi, len);
      ShortKeysFitSub(rest, key + 1, hi, len, max);
    case JumpEdge(key, target, rest) =>
      ShortKeysFitRest(sub, rest, key, hi, len);
      ShortKeysFitSub(rest, key + 1, hi, len, max);
      forall more | target.LookUp(more).Some?
        ensures len + 1 + |more| <= 0x1_0000
      {
        assert sub.LookUp(key, more).Some?;
      }
      ShortKeysFit(target, len + 1, max);
    case LastEdge(key, next) =>
      forall more | next.LookUp(more).Some?
        ensures len + 1 + |more| <= 0x1_0000
      {
        assert sub.LookUp(key, more).Some?;
      }
      ShortKeysFit(next, len + 1, max);
  }

  lemma ShortKeysFitRest(sub: Sub, rest: Sub, key: Byte, hi: int, len: nat)
    requires sub.FinalEdge? || sub.JumpEdge?
    requires sub.key == key && sub.rest == rest && rest.Ordered(key + 1, hi)
    requires forall b, more :: sub.LookUp(b, more).Some? ==> len + 1 + |more| <= 0x1_0000
    ensures forall b, more :: rest.LookUp(b, more).Some? ==> len + 1 + |more| <= 0x1_0000
  {
    forall b, more | rest.LookUp(b, more).Some?
      ensures len + 1 + |more| <= 0x1_0000
    {
      if !rest.HasKey(b) {
        NoSuchKey(rest, b, more);
      }
      KeysInRange(rest, key + 1, hi, b);
      assert sub.LookUp(b, more).Some?;
    }
  }

  // ----- the stack

  /** A stack entry holds the position and the size of the edges that it stands for. */
  ghost predicate Holds(bytes: seq<Byte>, saved: Saved, p: Pending, max: int) {
    EncodesSub(bytes, saved.offset, p.sub) && p.sub.Ordered(p.lo, p.hi) && SubFits(p.sub, |p.prefix|, max) &&
    (max <= 0 || |p.prefix| < max) && |p.prefix| <= 0xffff && saved.packed == Pack(p.sub.Size(), |p.prefix|)
  }

  /** The stack holds unfinished branch nodes on the way to the current string. */
  ghost predicate StackHolds(bytes: seq<Byte>, stack: seq<Saved>, pending: seq<Pending>, max: int, base: seq<Byte>,
                             str: seq<Byte>) {
    |stack| == |pending| &&
    (forall i :: 0 <= i < |stack| ==> Holds(bytes, stack[i], pending[i], max) && base <= pending[i].prefix <= str) &&
    (forall i, j :: 0 <= i < j < |stack| ==> pending[i].prefix <= pending[j].prefix)
  }

  lemma EmptyStackHolds(bytes: seq<Byte>, max: int, base: seq<Byte>, str: seq<Byte>)
    ensures StackHolds(bytes, [], [], max, base, str)
  {
  }

  /** What is on top of the stack, and the stack without it. */
  lemma TopHolds(bytes: seq<Byte>, stack: seq<Saved>, pending: seq<Pending>, max: int, base: seq<Byte>, str: seq<Byte>)
    requires StackHolds(bytes, stack, pending, max, base, str) && stack != []
    ensures |stack| == |pending|
    ensures var top := |stack| - 1;
            Holds(bytes, stack[top], pending[top], max) && base <= pending[top].prefix <= str &&
            StackHolds(bytes, stack[..top], pending[..top], max, base, pending[top].prefix)
  {
    hide Holds;
  }

  /** What is still to come from the stack. */
  ghost function StackEntries(pending: seq<Pending>, max: int): seq<Entry> {
    if pending == [] then []
    else
      var top := pending[|pending| - 1];
      SubEntries(top.sub, top.prefix, max) + StackEntries(pending[..|pending| - 1], max)
  }

  lemma StackEntriesPush(pending: seq<Pending>, p: Pending, max: int)
    ensures StackEntries(pending + [p], max) == SubEntries(p.sub, p.prefix, max) + StackEntries(pending, max)
  {
    assert (pending + [p])[..|pending|] == pending;
  }

  ghost function CursorEntries(cursor: Cursor, str: seq<Byte>, max: int): seq<Entry> {
    match cursor
    case Nowhere => []
    case Cut => [Entry(str, NO_REAL_VALUE)]
    case OnNode(node) => NodeEntries(node, str, max)
  }

  lemma StackHoldsLonger(bytes: seq<Byte>, stack: seq<Saved>, pending: seq<Pending>, max: int, base: seq<Byte>,
                         str: seq<Byte>, longer: seq<Byte>)
    requires StackHolds(bytes, stack, pending, max, base, str) && str <= longer
    ensures StackHolds(bytes, stack, pending, max, base, longer)
  {
    hide Holds;
  }

  lemma SplitsWhenLong(bytes: seq<Byte>, pos: nat, sub: Sub)
    requires EncodesSub(bytes, pos, sub) && sub.Size() > MAX_BRANCH_LINEAR_SUB_NODE_LENGTH
    ensures sub.Split?
  {
  }

  /** What a state has to deliver, by what is already matched within a linear-match node. */
  lemma StartEntries(start: State, max: int)
    ensures CursorEntries(Iterator.StartCursor(start, max), Iterator.Base(start, max), max) + StackEntries([], max) ==
            StateEntries(start, max)
  {
    if start.InLinear? {
      assert [] + start.bytes == start.bytes;
      if 0 < max < |start.bytes| {
        assert [] + start.bytes[..max] == start.bytes[..max];
      }
    }
  }

  class Iterator {
    const bytes: seq<Byte>
    var pos: Option<nat>
    const initialPos: Option<nat>
    var remainingMatchLength: int
    const initialRemainingMatchLength: int
    var str: seq<Byte>
    const maxLength: int
    var value: int
    var stack: seq<Saved>
    // The error code that the construction left, and that the caller passes on.
    const illegalArgument: bool

    ghost const start: State
    ghost const base: seq<Byte>
    ghost var cursor: Cursor
    ghost var pending: seq<Pending>

    /** The string that was already matched within a linear-match node of the trie, up to the limit. */
    static ghost function Base(start: State, max: int): seq<Byte> {
      if !start.InLinear? then [] else if 0 < max < |start.bytes| then start.bytes[..max] else start.bytes
    }

    static ghost predicate StateFits(start: State, max: int) {
      match start
      case Stopped => true
      case InLinear(bytes, next) => Fits(next, |bytes|, max)
      case At(node) => Fits(node, 0, max)
    }

    ghost predicate Started() {
      start.WellFormed() && StateFits(start, maxLength) &&
      Represents(bytes, initialPos, initialRemainingMatchLength, start) &&
      base == Base(start, maxLength) && (start == Stopped ==> initialRemainingMatchLength == -1)
    }

    /** What holds while the iterator moves on. */
    ghost predicate Moving()
      reads this
    {
      Started() && base <= str && (maxLength <= 0 || |str| <= maxLength) &&
      StackHolds(bytes, stack, pending, maxLength, base, str) &&
      (remainingMatchLength == -1 || (remainingMatchLength >= 0 && pending == []))
    }

    /** A node is encoded at `p`, where the current string leads. */
    ghost predicate Stands(p: nat, node: Node)
      reads `str
    {
      node.WellFormed() && Encodes(bytes, p, node) && Fits(node, |str|, maxLength)
    }

    ghost predicate Valid()
      reads this
    {
      !illegalArgument ==>
        Moving() &&
        match cursor
        case Nowhere => pos == None
        case Cut => pos.Some? && remainingMatchLength >= 0
        case OnNode(node) => pos.Some? && remainingMatchLength == -1 && Stands(pos.value, node)
    }

    /** The entries that are still to be delivered. */
    ghost function ToCome(): seq<Entry>
      reads this
    {
      CursorEntries(cursor, str, maxLength) + StackEntries(pending, maxLength)
    }

    /** Prepares to deliver a whole trie. */
    constructor (trieBytes: seq<Byte>, maxStringLength: int, ghost root: Node)
      requires root.WellFormed() && Encodes(trieBytes, 0, root) && Fits(root, 0, maxStringLength)
      ensures Valid() && !illegalArgument && start == At(root) && maxLength == maxStringLength
      ensures ToCome() == StateEntries(start, maxLength)
    {
      bytes := trieBytes;
      pos, initialPos := Some(0), Some(0);
      remainingMatchLength, initialRemainingMatchLength := -1, -1;
      str, maxLength, value, stack := [], maxStringLength, 0, [];
      illegalArgument := false;
      start, base := At(root), [];
      cursor, pending := OnNode(root), [];
    }

    /**
     Prepares to deliver what may follow in a trie after a walk. Fails exactly if the walk
     stopped within a linear-match node of which some bytes were matched before.
     */
    constructor FromTrie(trie: BytesTrie, maxStringLength: int)
      requires trie.Valid() && StateFits(trie.st, maxStringLength)
      ensures Valid() && start == trie.st && maxLength == maxStringLength
      ensures illegalArgument == trie.StoppedMidway()
      ensures !illegalArgument ==> ToCome() == StateEntries(start, maxLength)
    {
      hide Encodes, NodeEntries, SubEntries, Fits, StateEntries, CursorEntries, StackEntries;
      var p, remaining := trie.pos, trie.remainingMatchLength;
      var s := [];
      var failed := false;
      var length := remaining;
      if length >= 0 {
        length := length + 1;
        if 0 < maxStringLength < length {
          length := maxStringLength;
        }
        if p == None {
          failed := true;
        } else {
          s := trie.bytes[p.value..p.value + length];
          p := Some(p.value + length);
          remaining := remaining - length;
        }
      }
      assert !failed ==> s == Base(trie.st, maxStringLength);
      bytes := trie.bytes;
      pos, initialPos := p, trie.pos;
      remainingMatchLength, initialRemainingMatchLength := remaining, trie.remainingMatchLength;
      str, maxLength, value, stack := s, maxStringLength, 0, [];
      illegalArgument := failed;
      start, base := trie.st, Base(trie.st, maxStringLength);
      cursor, pending := StartCursor(trie.st, maxStringLength), [];
      StartEntries(trie.st, maxStringLength);
    }

    static ghost function StartCursor(start: State, max: int): Cursor {
      match start
      case Stopped => Nowhere
      case InLinear(bytes, next) => if 0 < max < |bytes| then Cut else OnNode(next)
      case At(node) => OnNode(node)
    }

    /** Starts over. */
    method Reset()
      requires Valid() && !illegalArgument
      modifies this
      ensures Valid() && ToCome() == StateEntries(start, maxLength)
    {
      hide Encodes, NodeEntries, SubEntries, Fits, StateEntries, CursorEntries, StackEntries, Node.WellFormed,
        StackHolds;
      pos := initialPos;
      remainingMatchLength := initialRemainingMatchLength;
      var length := remainingMatchLength + 1;
      if 0 < maxLength < length {
        length := maxLength;
      }
      if length < |str| {
        str := str[..length];
      }
      assert str == base;
      if pos.Some? {
        pos := Some(pos.value + length);
      }
      remainingMatchLength := remainingMatchLength - length;
      stack, pending := [], [];
      EmptyStackHolds(bytes, maxLength, base, str);
      cursor := StartCursor(start, maxLength);
      StartEntries(start, maxLength);
    }

    method HasNext() returns (r: bool)
      requires Valid() && !illegalArgument
      ensures r == (ToCome() != [])
    {
      r := pos.Some? || stack != [];
    }

    method TruncateAndStop() returns (r: bool)
      modifies `pos, `value, `cursor
      ensures r && pos == None && cursor == Nowhere && value == NO_REAL_VALUE
    {
      pos := None;
      value := NO_REAL_VALUE;
      cursor := Nowhere;
      r := true;
    }

    /** Saves the edges `p.sub` of the branch node that the current string leads to. */
    method Push(saved: Saved, ghost p: Pending)
      requires Moving() && remainingMatchLength == -1 && Holds(bytes, saved, p, maxLength) && p.prefix == str
      modifies `stack, `pending
      ensures Moving() && StackEntries(pending, maxLength) ==
              SubEntries(p.sub, str, maxLength) + StackEntries(old(pending), maxLength)
    {
      hide Holds, StackEntries;
      StackEntriesPush(pending, p, maxLength);
      stack := stack + [saved];
      pending := pending + [p];
    }

    /** The edges `sub` of a branch node are encoded at `p`, and the current string leads to the node. */
    ghost predicate AtEdges(p: nat, length: nat, sub: Sub, lo: int, hi: int)
      reads this
    {
      Moving() && remainingMatchLength == -1 && EncodesSub(bytes, p, sub) && sub.Ordered(lo, hi) &&
      length == sub.Size() &&
      SubFits(sub, |str|, maxLength) && |str| <= 0xffff && (maxLength <= 0 || |str| < maxLength)
    }

    /** Takes the less-than edge of a binary search, and saves the other one. */
    method FollowLess(start: nat, size: nat, ghost sub: Sub, ghost lo: int, ghost hi: int) returns (p: nat, length: nat)
      requires AtEdges(start, size, sub, lo, hi) && size > MAX_BRANCH_LINEAR_SUB_NODE_LENGTH
      modifies `stack, `pending
      ensures AtEdges(p, length, sub.less, lo, sub.key) && 2 <= length < size
      ensures SubEntries(sub.less, str, maxLength) + StackEntries(pending, maxLength) ==
              SubEntries(sub, str, maxLength) + StackEntries(old(pending), maxLength)
    {
      hide StackHolds, StackEntries, Encodes, ReadValue, BigEndian, ReadDelta;
      p := start + 1;
      Push(Saved(SkipDelta(bytes, p), Pack(size - size / 2, |str|)), Pending(sub.ge, str, sub.key, hi));
      length := size / 2;
      assert EncodesSub(bytes, JumpByDelta(bytes, p), sub.less);
      p := JumpByDelta(bytes, p);
      Associate(SubEntries(sub.less, str, maxLength), SubEntries(sub.ge, str, maxLength),
                StackEntries(old(pending), maxLength));
    }

    /** Takes the first edge of a list, and saves the others. */
    method FollowFirst(start: nat, size: nat, ghost sub: Sub, ghost lo: int, ghost hi: int)
      returns (final: bool, p: nat, ghost target: Node)
      requires AtEdges(start, size, sub, lo, hi) && 2 <= size <= MAX_BRANCH_LINEAR_SUB_NODE_LENGTH
      modifies this
      ensures Followed(final, p, target) && Weight(target) <= SubWeight(sub)
      ensures SubEntries(sub, old(str), maxLength) + StackEntries(old(pending), maxLength) ==
              FollowedEntries(final, target)
    {
      hide StackHolds, StackEntries, ReadValue, Encodes, EncodesSub;
      EdgeEncoded(bytes, start, sub);
      p := start;
      var trieByte := bytes[p];
      var node := bytes[p + 1];
      var isFinal := node % 2 == 1;
      var value := ReadValue(bytes, p + 2, node / 2);
      p := SkipValue(p + 2, node);
      Push(Saved(p, Pack(size - 1, |str|)), Pending(sub.rest, str, sub.key + 1, hi));
      ghost var s, others := str, SubEntries(sub.rest, str, maxLength);
      StackHoldsLonger(bytes, stack, pending, maxLength, base, str, str + [trieByte]);
      str := str + [trieByte];
      final := isFinal;
      if isFinal {
        pos := None;
        this.value := value;
        cursor := Nowhere;
        target := Final(value);
      } else {
        assert Encodes(bytes, p + value, sub.target);
        p := p + value;
        target := sub.target;
      }
      Associate(NodeEntries(target, str, maxLength), others, StackEntries(old(pending), maxLength));
    }

    /** An edge was followed: to a final value, which is delivered, or to another node. */
    ghost predicate Followed(final: bool, p: nat, target: Node)
      reads this
    {
      Moving() && remainingMatchLength == -1 &&
      if final then pos == None && cursor == Nowhere else Stands(p, target)
    }

    ghost function FollowedEntries(final: bool, target: Node): seq<Entry>
      reads this
    {
      (if final then [Entry(str, value)] else NodeEntries(target, str, maxLength)) + StackEntries(pending, maxLength)
    }

    /** Takes the first edge of the edges at `start`, and saves what is left of them. */
    method BranchNext(start: nat, size: nat, ghost sub: Sub, ghost lo: int, ghost hi: int)
      returns (final: bool, p: nat, ghost target: Node)
      requires AtEdges(start, size, sub, lo, hi) && 2 <= size
      modifies this
      ensures Followed(final, p, target) && Weight(target) <= SubWeight(sub)
      ensures SubEntries(sub, old(str), maxLength) + StackEntries(old(pending), maxLength) ==
              FollowedEntries(final, target)
    {
      hide StackHolds, StackEntries, SubEntries, EncodesSub, Followed, FollowedEntries;
      var length;
      p, length := start, size;
      ghost var s: Sub, h: int := sub, hi;
      while length > MAX_BRANCH_LINEAR_SUB_NODE_LENGTH
        invariant AtEdges(p, length, s, lo, h) && 2 <= length && SubWeight(s) <= SubWeight(sub) && str == old(str)
        invariant SubEntries(s, str, maxLength) + StackEntries(pending, maxLength) ==
                  SubEntries(sub, str, maxLength) + StackEntries(old(pending), maxLength)
        decreases length
      {
        SplitsWhenLong(bytes, p, s);
        p, length := FollowLess(p, length, s, lo, h);
        s, h := s.less, s.key;
      }
      final, p, target := FollowFirst(p, length, s, lo, h);
    }

    /** Pops the state of a branch node off the stack, and follows its next edge. */
    method Pop() returns (final: bool, p: nat, ghost target: Node)
      requires Moving() && stack != []
      modifies this
      ensures Followed(final, p, target)
      ensures StackEntries(old(pending), maxLength) == FollowedEntries(final, target)
    {
      hide SubEntries, Encodes, Fits, StackHolds, EncodesSub;
      TopHolds(bytes, stack, pending, maxLength, base, str);
      var top := stack[|stack| - 1];
      ghost var edges := pending[|pending| - 1];
      p := top.offset;
      stack, pending := stack[..|stack| - 1], pending[..|pending| - 1];
      str := str[..top.packed % 0x1_0000];
      assert str == edges.prefix;
      var length := top.packed / 0x1_0000;
      if length > 1 {
        final, p, target := BranchNext(p, length, edges.sub, edges.lo, edges.hi);
      } else {
        final, p, target := FollowLast(p, edges.sub, edges.lo, edges.hi);
      }
    }

    /** The last edge of a branch node leads on directly. */
    method FollowLast(start: nat, ghost sub: Sub, ghost lo: int, ghost hi: int)
      returns (final: bool, p: nat, ghost target: Node)
      requires AtEdges(start, 1, sub, lo, hi)
      modifies `str
      ensures Followed(final, p, target)
      ensures SubEntries(sub, old(str), maxLength) + StackEntries(pending, maxLength) == FollowedEntries(final, target)
    {
      hide StackHolds, StackEntries, BigEndian, ReadValue;
      StackHoldsLonger(bytes, stack, pending, maxLength, base, str, str + [bytes[start]]);
      str := str + [bytes[start]];
      final, p, target := false, start + 1, sub.next;
    }

    /** Delivers the next entry; false if there is none. */
    method Next() returns (r: bool)
      requires Valid()
      modifies this
      ensures Valid()
      ensures illegalArgument ==> !r && str == old(str) && value == old(value)
      ensures !illegalArgument ==> r == (old(ToCome()) != [])
      ensures r ==> old(ToCome()) == [Entry(str, value)] + ToCome()
      ensures !illegalArgument && !r ==> ToCome() == []
    {
      hide Stands, NodeEntries, Started, SubEntries, StateEntries;
      if illegalArgument {
        return false;
      }
      var p: nat := 0;
      ghost var node;
      ghost var all := ToCome();
      if pos == None {
        if stack == [] {
          return false;
        }
        var final;
        final, p, node := Pop();
        if final {
          return true;
        }
      } else {
        p := pos.value;
        if cursor.OnNode? {
          node := cursor.node;
        }
      }
      if remainingMatchLength >= 0 {
        r := TruncateAndStop();
        return;
      }
      r := Deliver(p, node);
    }

    /** Delivers the current string with the value whose lead byte is just before `p`. */
    method DeliverValue(p: nat, ghost n: Node)
      requires Moving() && remainingMatchLength == -1 && 0 < p && Stands(p - 1, n) && n.IsValue()
      modifies `value, `pos, `cursor
      ensures Valid()
      ensures NodeEntries(n, str, maxLength) + StackEntries(pending, maxLength) == [Entry(str, value)] + ToCome()
    {
      hide StackHolds, StackEntries, Started, EncodesSub, BigEndian;
      var node := bytes[p - 1];
      var isFinal := node % 2 == 1;
      value := ReadValue(bytes, p, node / 2);
      if isFinal || 0 < maxLength == |str| {
        pos := None;
        cursor := Nowhere;
      } else {
        pos := Some(SkipValue(p, node));
        cursor := OnNode(n.next);
      }
    }

    /** Follows the first edge of a branch node, whose lead byte is `lead`. */
    method EnterBranch(start: nat, lead: nat, ghost n: Node) returns (final: bool, p: nat, ghost target: Node)
      requires Moving() && remainingMatchLength == -1 && 0 < start && Stands(start - 1, n) && n.Branch?
      requires lead == bytes[start - 1] && (maxLength <= 0 || |str| < maxLength)
      modifies this
      ensures Followed(final, p, target) && Weight(target) < Weight(n)
      ensures NodeEntries(n, old(str), maxLength) + StackEntries(old(pending), maxLength) ==
              FollowedEntries(final, target)
    {
      hide StackHolds, StackEntries, Started, EncodesSub, SubFits, SubEntries;
      var node := lead;
      p := start;
      if node == 0 {
        node := bytes[p];
        p := p + 1;
      }
      final, p, target := BranchNext(p, node + 1, n.sub, 0, 0x100);
    }

    /** Linear-match node with lead byte `lead`, appends its bytes to the string as far as the limit allows. */
    method EnterLinear(start: nat, lead: nat, ghost n: Node) returns (cut: bool, p: nat)
      requires Moving() && remainingMatchLength == -1 && 0 < start && Stands(start - 1, n) && n.Linear?
      requires lead == bytes[start - 1] && (maxLength <= 0 || |str| < maxLength)
      modifies `str
      ensures Moving()
      ensures cut ==> NodeEntries(n, old(str), maxLength) == [Entry(str, NO_REAL_VALUE)]
      ensures !cut ==> Stands(p, n.next) && NodeEntries(n, old(str), maxLength) == NodeEntries(n.next, str, maxLength)
    {
      hide StackEntries, Started, Holds, EncodesSub;
      p := start;
      var length := lead - MIN_LINEAR_MATCH + 1;
      cut := 0 < maxLength < |str| + length;
      var appended := if cut then maxLength - |str| else length;
      assert bytes[p..p + appended] == n.bytes[..appended];
      assert !cut ==> n.bytes[..appended] == n.bytes;
      str := str + bytes[p..p + appended];
      p := p + appended;
    }

    /** Goes on from a node to its first entry. */
    method Deliver(start: nat, ghost node: Node) returns (r: bool)
      requires Moving() && remainingMatchLength == -1 && Stands(start, node)
      modifies this
      ensures r && Valid()
      ensures NodeEntries(node, old(str), maxLength) + StackEntries(old(pending), maxLength) ==
              [Entry(str, value)] + ToCome()
    {
      hide StackHolds, StackEntries, Started, NodeEntries, EncodesSub, Fits;
      var p: nat := start;
      ghost var n := node;
      while true
        invariant Moving() && remainingMatchLength == -1 && Stands(p, n)
        invariant NodeEntries(n, str, maxLength) + StackEntries(pending, maxLength) ==
                  NodeEntries(node, old(str), maxLength) + StackEntries(old(pending), maxLength)
        decreases Weight(n)
      {
        LeadByte(bytes, p, n);
        var node := bytes[p];
        p := p + 1;
        if node >= MIN_VALUE_LEAD {
          DeliverValue(p, n);
          return true;
        }
        if 0 < maxLength == |str| {
          CutHere(n, str, maxLength);
          r := TruncateAndStop();
          return;
        }
        if node < MIN_LINEAR_MATCH {
          var final;
          final, p, n := EnterBranch(p, node, n);
          if final {
            return true;
          }
        } else {
          var cut;
          cut, p := EnterLinear(p, node, n);
          if cut {
            r := TruncateAndStop();
            return;
          }
          n := n.next;
        }
      }
    }

    /** A node without a value is cut off at the limit. */
    static lemma CutHere(n: Node, s: seq<Byte>, max: int)
      requires n.WellFormed() && !n.IsValue() && 0 < max == |s|
      ensures NodeEntries(n, s, max) == [Entry(s, NO_REAL_VALUE)]
    {
      if n.Linear? {
        assert s + n.bytes[..0] == s;
      }
    }
  }
}

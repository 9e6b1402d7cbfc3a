/** Walking a serialized trie, `icu/common/bytestrie.cpp`. */
module BytesTries {
  import opened Common
  import opened TrieNodes
  import opened TrieBytes

  /** The position and the remaining match length of a walk represent a state. */
  ghost predicate Represents(bytes: seq<Byte>, pos: Option<nat>, remaining: int, st: State) {
    match st
    case Stopped => pos == None && remaining >= -1
    case InLinear(rest, next) =>
      pos.Some? && remaining == |rest| - 1 && rest != [] && pos.value + |rest| <= |bytes| &&
      rest == bytes[pos.value..pos.value + |rest|] && Encodes(bytes, pos.value + |rest|, next)
    case At(node) => pos.Some? && remaining == -1 && Encodes(bytes, pos.value, node)
  }

  /** The result that a value node's lead byte stands for. */
  function ValueResult(node: nat): Result {
    if node % 2 == 1 then FinalValue else IntermediateValue
  }

  /** What is reported at a position outside of linear-match nodes. */
  function NodeResult(node: nat): Result {
    if node >= MIN_VALUE_LEAD then ValueResult(node) else NoValue
  }

  /** The edges of a branch follow its lead byte; if that is 0, then after one byte for their number. */
  ghost predicate BranchAt(bytes: seq<Byte>, start: nat, lead: nat, sub: Sub) {
    start <= |bytes| &&
    if lead == 0 then start < |bytes| && bytes[start] == sub.Size() - 1 && EncodesSub(bytes, start + 1, sub)
    else lead == sub.Size() - 1 && EncodesSub(bytes, start, sub)
  }

  /** The kind of an encoded node, and what follows its lead byte. */
  lemma NodeAt(bytes: seq<Byte>, pos: nat, node: Node)
    requires Encodes(bytes, pos, node) && node.WellFormed()
    ensures pos < |bytes|
    ensures bytes[pos] < MIN_LINEAR_MATCH <==> node.Branch?
    ensures MIN_LINEAR_MATCH <= bytes[pos] < MIN_VALUE_LEAD <==> node.Linear?
    ensures MIN_VALUE_LEAD <= bytes[pos] && bytes[pos] % 2 == 1 <==> node.Final?
    ensures MIN_VALUE_LEAD <= bytes[pos] && bytes[pos] % 2 == 0 <==> node.Value?
    ensures node.Value? ==> node.next.WellFormed() && Encodes(bytes, SkipValue(pos + 1, bytes[pos]), node.next)
    ensures node.IsValue() ==>
              SkipValue(pos + 1, bytes[pos]) <= |bytes| && ReadValue(bytes, pos + 1, bytes[pos] / 2) == node.value
    ensures node.Linear? ==> node.next.WellFormed() && bytes[pos] == MIN_LINEAR_MATCH + |node.bytes| - 1
    ensures node.Linear? ==> Encodes(bytes, pos + 1 + |node.bytes|, node.next)
    ensures node.Branch? ==> 2 <= node.sub.Size() && node.sub.Ordered(0, 0x100)
    ensures node.Branch? ==> BranchAt(bytes, pos + 1, bytes[pos], node.sub)
  {
    hide EncodesSub, ReadValue;
    LeadByte(bytes, pos, node);
  }

  lemma NodeResultIsReport(bytes: seq<Byte>, pos: nat, node: Node)
    requires Encodes(bytes, pos, node)
    ensures NodeResult(bytes[pos]) == Report(At(node))
  {
    LeadByte(bytes, pos, node);
  }

  /** A byte as a signed character. */
  function SignedChar(b: Byte): int {
    if b < 0x80 then b else b - 0x100
  }

  /** The step for an integer, where one that is no byte matches nothing. */
  ghost function StepInt(st: State, b: int): State {
    if 0 <= b < 0x100 then Step(st, b) else Stopped
  }

  lemma StepIntOf(node: Node, b: int)
    ensures node.Final? ==> StepInt(At(node), b) == Stopped
    ensures node.Value? ==> StepInt(At(node), b) == StepInt(At(node.next), b)
    ensures node.Branch? ==> StepInt(At(node), b) == StepInt(At(Branch(node.sub)), b)
  {
  }

  /** The first edge of a list is followed, or passed by. */
  lemma StepEdge(sub: Sub, b: int)
    ensures sub.FinalEdge? ==>
              StepInt(At(Branch(sub)), b) == if b == sub.key then At(Final(sub.value))
                else StepInt(At(Branch(sub.rest)), b)
    ensures sub.JumpEdge? ==>
              StepInt(At(Branch(sub)), b) == if b == sub.key then At(sub.target) else StepInt(At(Branch(sub.rest)), b)
    ensures sub.LastEdge? ==> StepInt(At(Branch(sub)), b) == if b == sub.key then At(sub.next) else Stopped
    ensures sub.Split? ==>
              StepInt(At(Branch(sub)), b) == StepInt(At(Branch(if b < sub.key then sub.less else sub.ge)), b)
  {
  }

  lemma FinalEncoded(bytes: seq<Byte>, pos: nat, value: int)
    requires pos < |bytes| && ValueAt(bytes, pos, value, true, SkipValue(pos + 1, bytes[pos]))
    ensures Encodes(bytes, pos, Final(value)) && Final(value).WellFormed()
  {
  }

  /** Past a byte that matches, the rest of a linear-match node is still there. */
  lemma RestEncoded(bytes: seq<Byte>, pos: nat, st: State, b: int)
    requires st.InLinear? && st.WellFormed() && Represents(bytes, Some(pos), |st.bytes| - 1, st) && b == bytes[pos]
    ensures StepInt(st, b).WellFormed() && StepInt(st, b) != Stopped
    ensures Represents(bytes, Some(pos + 1), |st.bytes| - 2, StepInt(st, b))
  {
    hide Encodes, Node.WellFormed;
  }

  /** Any other integer stops the walk there. */
  lemma StepOff(st: State, b: int)
    requires st.InLinear? && st.bytes != [] && b != st.bytes[0]
    ensures StepInt(st, b) == Stopped
  {
  }

  /** Feeding a string at once, which takes its bytes as signed characters and does not adjust them. */
  ghost function WalkChars(st: State, s: seq<Byte>, n: nat): State
    requires n <= |s|
  {
    if n == 0 then st else StepInt(WalkChars(st, s, n - 1), SignedChar(s[n - 1]))
  }

  ghost predicate Ascii(s: seq<Byte>, n: nat)
    requires n <= |s|
  {
    forall k :: 0 <= k < n ==> s[k] < 0x80
  }

  lemma {:induction false} NonAsciiStops(st: State, s: seq<Byte>, n: nat)
    requires n <= |s| && !Ascii(s, n)
    ensures WalkChars(st, s, n) == Stopped
  {
    if Ascii(s, n - 1) {
      assert s[n - 1] >= 0x80;
    } else {
      NonAsciiStops(st, s, n - 1);
    }
  }

  lemma {:induction false} AsciiAgrees(st: State, s: seq<Byte>, n: nat)
    requires n <= |s| && Ascii(s, n)
    ensures WalkChars(st, s, n) == Walk(st, s, n)
  {
    if n > 0 {
      AsciiAgrees(st, s, n - 1);
    }
  }

  /**
   Feeding a string at once agrees with feeding it byte by byte exactly if the string is
   ASCII, or no string of the trie continues that way in the first place.
   */
  lemma WalkCharsAgrees(st: State, s: seq<Byte>, n: nat)
    requires n <= |s|
    ensures WalkChars(st, s, n) == Walk(st, s, n) <==> Ascii(s, n) || Walk(st, s, n) == Stopped
  {
    if Ascii(s, n) {
      AsciiAgrees(st, s, n);
    } else {
      NonAsciiStops(st, s, n);
    }
  }

  /**
   The two agree from every state of every trie exactly if the string is ASCII: for any other
   string there is a trie that stores its part before the first other byte, with that byte.
   */
  lemma WalkCharsAlwaysAgrees(s: seq<Byte>, n: nat)
    requires n <= |s|
    ensures Ascii(s, n) <==> forall st: State :: st.WellFormed() ==> WalkChars(st, s, n) == Walk(st, s, n)
  {
    if Ascii(s, n) {
      forall st: State | st.WellFormed()
        ensures WalkChars(st, s, n) == Walk(st, s, n)
      {
        AsciiAgrees(st, s, n);
      }
    } else {
      var st := At(Chain(s, n, 0));
      ChainIsWalked(s, n, n);
      NonAsciiStops(st, s, n);
      assert WalkChars(st, s, n) != Walk(st, s, n);
    }
  }

  /** A trie of one string: what follows the first `k` bytes of it. */
  ghost function Chain(s: seq<Byte>, n: nat, k: nat): (node: Node)
    requires k <= n <= |s|
    ensures node.WellFormed()
    decreases n - k
  {
    if k == n then Final(0) else Linear([s[k]], Chain(s, n, k + 1))
  }

  lemma {:induction false} ChainIsWalked(s: seq<Byte>, n: nat, k: nat)
    requires k <= n <= |s|
    ensures Walk(At(Chain(s, n, 0)), s, k) == At(Chain(s, n, k))
  {
    if k > 0 {
      ChainIsWalked(s, n, k - 1);
    }
  }

  /** Once the walk has stopped, further characters do not matter. */
  lemma {:induction false} StaysStopped(from: State, s: seq<Byte>, i: nat, n: nat)
    requires i <= n <= |s| && WalkChars(from, s, i) == Stopped
    ensures WalkChars(from, s, n) == Stopped
    decreases n
  {
    if i < n {
      StaysStopped(from, s, i, n - 1);
    }
  }

  lemma WalkCharsStart(from: State, s: seq<Byte>)
    ensures WalkChars(from, s, 0) == from
  {
  }

  lemma WalkCharsStep(from: State, s: seq<Byte>, i: nat)
    requires i < |s| && WalkChars(from, s, i).WellFormed()
    ensures WalkChars(from, s, i + 1) == StepInt(WalkChars(from, s, i), SignedChar(s[i]))
    ensures WalkChars(from, s, i + 1).WellFormed()
  {
    hide Step;
    if s[i] < 0x80 {
      StepIsLookUp(WalkChars(from, s, i), s[i], []);
    }
  }

  /** After a branch the walk is on a node, or has stopped. */
  lemma {:induction false} AfterBranch(sub: Sub, b: int)
    ensures StepInt(At(Branch(sub)), b) == Stopped || StepInt(At(Branch(sub)), b).At?
  {
    match sub
    case Split(key, less, ge) =>
      AfterBranch(less, b);
      AfterBranch(ge, b);
    case FinalEdge(_, _, rest) => AfterBranch(rest, b);
    case JumpEdge(_, _, rest) => AfterBranch(rest, b);
    case LastEdge(_, _) =>
  }

  /** The walk stops before the end of the linear-match node within which it starts. */
  ghost predicate StopsMidway(from: State, s: seq<Byte>, n: nat)
    requires n <= |s|
  {
    from.InLinear? && WalkChars(from, s, if n < |from.bytes| then n else |from.bytes|) == Stopped
  }

  class BytesTrie {
    const bytes: seq<Byte>
    // Where the walk stands in the bytes; none once it has stopped.
    var pos: Option<nat>
    // Within a linear-match node, one less than the bytes of it that are left; else -1.
    var remainingMatchLength: int

    ghost const root: Node
    ghost var st: State

    ghost predicate Valid()
      reads this
    {
      root.WellFormed() && Encodes(bytes, 0, root) &&
      st.WellFormed() && Represents(bytes, pos, remainingMatchLength, st)
    }

    /** The walk stopped within a linear-match node, of which some bytes were matched before. */
    ghost predicate StoppedMidway()
      reads this
    {
      st == Stopped && remainingMatchLength >= 0
    }

    constructor (trieBytes: seq<Byte>, ghost root: Node)
      requires root.WellFormed() && Encodes(trieBytes, 0, root)
      ensures Valid() && st == At(root) && bytes == trieBytes && this.root == root
    {
      bytes, this.root := trieBytes, root;
      pos, remainingMatchLength := Some(0), -1;
      st := At(root);
    }

    method Reset()
      requires Valid()
      modifies this
      ensures Valid() && st == At(root)
    {
      pos := Some(0);
      remainingMatchLength := -1;
      st := At(root);
    }

    /** Gives up, which leaves the remaining match length as it is. */
    method Stop() returns (r: Result)
      requires root.WellFormed() && Encodes(bytes, 0, root) && remainingMatchLength >= -1
      modifies `pos, `st
      ensures Valid() && st == Stopped && r == Report(st)
    {
      pos := None;
      st := Stopped;
      r := NoMatch;
    }

    /** What the walk has come to. */
    method Current() returns (r: Result)
      requires Valid()
      ensures r == Report(st)
    {
      if pos == None {
        return NoMatch;
      }
      if remainingMatchLength < 0 {
        NodeResultIsReport(bytes, pos.value, st.node);
        r := NodeResult(bytes[pos.value]);
      } else {
        r := NoValue;
      }
    }

    /** The value of the string so far. */
    method GetValue() returns (value: int)
      requires Valid() && (Report(st) == FinalValue || Report(st) == IntermediateValue)
      ensures st.LookUp([]) == Some(value)
    {
      var leadByte := bytes[pos.value];
      value := ReadValue(bytes, pos.value + 1, leadByte / 2);
    }

    /** Remembers a position that was reached, and reports it. */
    method Leave(pos: nat, length: int, ghost cur: State) returns (r: Result)
      requires root.WellFormed() && Encodes(bytes, 0, root) && cur.WellFormed()
      requires cur != Stopped && Represents(bytes, Some(pos), length, cur)
      modifies this
      ensures Valid() && st == cur && r == Report(st) && remainingMatchLength == length
    {
      remainingMatchLength := length;
      this.pos := Some(pos);
      st := cur;
      if length < 0 {
        NodeResultIsReport(bytes, pos, cur.node);
        r := NodeResult(bytes[pos]);
      } else {
        r := NoValue;
      }
    }

    /** Follows the edge of one byte among all edges of a branch. */
    method BranchNext(start: nat, lead: nat, inByte: int, ghost sub: Sub) returns (r: Result)
      requires root.WellFormed() && Encodes(bytes, 0, root) && remainingMatchLength == -1
      requires sub.Ordered(0, 0x100) && 2 <= sub.Size() && BranchAt(bytes, start, lead, sub)
      modifies this
      ensures Valid() && st == StepInt(At(Branch(sub)), inByte) && r == Report(st)
      ensures remainingMatchLength == old(remainingMatchLength)
    {
      hide Encodes, EncodesSub, StepInt, ReadDelta;
      var pos: nat, length := start, lead;
      if length == 0 {
        length := bytes[pos];
        pos := pos + 1;
      }
      length := length + 1;
      ghost var s: Sub, lo: int, hi: int := sub, 0, 0x100;
      while length > MAX_BRANCH_LINEAR_SUB_NODE_LENGTH
        invariant 2 <= length == s.Size() && EncodesSub(bytes, pos, s) && s.Ordered(lo, hi)
        invariant remainingMatchLength == -1
        invariant StepInt(At(Branch(sub)), inByte) == StepInt(At(Branch(s)), inByte)
        decreases length
      {
        SplitEncoded(bytes, pos, s);
        StepEdge(s, inByte);
        var key := bytes[pos];
        pos := pos + 1;
        if inByte < key {
          length := length / 2;
          pos := JumpByDelta(bytes, pos);
          s, hi := s.less, key;
        } else {
          length := length - length / 2;
          pos := SkipDelta(bytes, pos);
          s, lo := s.ge, key;
        }
      }
      r := LinearNext(pos, length, inByte, s, lo, hi);
    }

    /** Follows the edge of one byte among the edges of a list. */
    method LinearNext(start: nat, size: nat, inByte: int, ghost sub: Sub, ghost lo: int, ghost hi: int)
      returns (r: Result)
      requires root.WellFormed() && Encodes(bytes, 0, root) && remainingMatchLength == -1
      requires sub.Ordered(lo, hi) && 2 <= size == sub.Size() <= MAX_BRANCH_LINEAR_SUB_NODE_LENGTH
      requires EncodesSub(bytes, start, sub)
      modifies this
      ensures Valid() && st == StepInt(At(Branch(sub)), inByte) && r == Report(st)
      ensures remainingMatchLength == old(remainingMatchLength)
    {
      hide Encodes, EncodesSub, StepInt, Represents, Node.WellFormed;
      var pos: nat, length := start, size;
      ghost var s: Sub, l: int := sub, lo;
      while length > 1
        invariant 1 <= length == s.Size() <= MAX_BRANCH_LINEAR_SUB_NODE_LENGTH && remainingMatchLength == -1
        invariant EncodesSub(bytes, pos, s) && s.Ordered(l, hi)
        invariant StepInt(At(Branch(sub)), inByte) == StepInt(At(Branch(s)), inByte)
      {
        EdgeEncoded(bytes, pos, s);
        StepEdge(s, inByte);
        var key := bytes[pos];
        pos := pos + 1;
        var node := bytes[pos];
        if inByte == key {
          if node % 2 == 1 {
            // The value stays to be read.
            FinalEncoded(bytes, pos, s.value);
            r := Leave(pos, -1, At(Final(s.value)));
          } else {
            var delta := ReadValue(bytes, pos + 1, node / 2);
            r := Leave(SkipValue(pos + 1, node) + delta, -1, At(s.target));
          }
          return;
        }
        length := length - 1;
        pos := SkipValue(pos + 1, node);
        l := s.key + 1;
        s := s.rest;
      }
      LastEdgeEncoded(bytes, pos, s);
      StepEdge(s, inByte);
      var key := bytes[pos];
      pos := pos + 1;
      if inByte == key {
        r := Leave(pos, -1, At(s.next));
      } else {
        r := Stop();
      }
    }

    /** Matches the first byte of a linear-match node, whose lead byte has been read. */
    method EnterLinear(start: nat, lead: nat, inByte: int, ghost node: Node)
      returns (noMatch: bool, p: nat, length: int)
      requires node.WellFormed() && node.Linear? && 0 < start
      requires Encodes(bytes, start - 1, node) && bytes[start - 1] == lead
      ensures noMatch == (StepInt(At(node), inByte) == Stopped)
      ensures !noMatch ==>
                StepInt(At(node), inByte).WellFormed() &&
                Represents(bytes, Some(p), length, StepInt(At(node), inByte))
    {
      p, length := start, lead - MIN_LINEAR_MATCH;
      noMatch := inByte != bytes[p];
      if !noMatch {
        p := p + 1;
        length := length - 1;
        StepLinearIsLookUp(node.bytes, node.next, inByte, []);
      }
    }

    /** One step from a position that is not within a linear-match node. */
    method NextImpl(start: nat, inByte: int, ghost node: Node) returns (r: Result)
      requires root.WellFormed() && Encodes(bytes, 0, root) && remainingMatchLength == -1
      requires node.WellFormed() && Encodes(bytes, start, node)
      modifies this
      ensures Valid() && st == StepInt(At(node), inByte) && r == Report(st)
      ensures st == Stopped ==> remainingMatchLength == -1
    {
      hide Encodes, EncodesSub, StepSub, StepInt, Represents, Node.WellFormed;
      var pos: nat := start;
      ghost var n := node;
      while true
        invariant Encodes(bytes, pos, n) && n.WellFormed() && StepInt(At(n), inByte) == StepInt(At(node), inByte)
        invariant remainingMatchLength == -1
        decreases n
      {
        NodeAt(bytes, pos, n);
        StepIntOf(n, inByte);
        var lead := bytes[pos];
        pos := pos + 1;
        if lead < MIN_LINEAR_MATCH {
          r := BranchNext(pos, lead, inByte, n.sub);
          return;
        } else if lead < MIN_VALUE_LEAD {
          var noMatch, p, length := EnterLinear(pos, lead, inByte, n);
          if noMatch {
            break;
          }
          r := Leave(p, length, StepInt(At(n), inByte));
          return;
        } else if lead % 2 == 1 {
          break;
        } else {
          pos := SkipValue(pos, lead);
          n := n.next;
        }
      }
      r := Stop();
    }

    /**
     One step of the walk. A negative byte is a signed character, and an integer that is no
     byte matches nothing.
     */
    method Next(inByte: int) returns (r: Result)
      requires Valid()
      modifies this
      ensures Valid() && st == StepInt(old(st), if inByte < 0 then inByte + 0x100 else inByte) && r == Report(st)
      ensures StoppedMidway() == (st == Stopped && (old(StoppedMidway()) || old(st).InLinear?))
    {
      hide Encodes, StepNode, StepLinear;
      if pos == None {
        return NoMatch;
      }
      var p, b := pos.value, inByte;
      if b < 0 {
        b := b + 0x100;
      }
      var length := remainingMatchLength;
      if length >= 0 {
        // The state lies within a linear-match node, whose next byte is at `p`.
        if b == bytes[p] {
          RestEncoded(bytes, p, st, b);
          r := Leave(p + 1, length - 1, StepInt(st, b));
        } else {
          StepOff(st, b);
          r := Stop();
        }
        return;
      }
      r := NextImpl(p, b, st.node);
    }

    /** Fetches the next character of a string that is counted, or NUL-terminated if `sLength` is negative. */
    method Fetch(s: seq<Byte>, i: nat, sLength: int, ghost n: nat) returns (end: bool, inByte: int)
      requires i <= n <= |s| && Counted(s, sLength, n)
      ensures end == (i == n) && (!end ==> inByte == SignedChar(s[i]))
    {
      inByte := 0;
      if sLength < 0 {
        inByte := SignedChar(s[i]);
        end := inByte == 0;
      } else {
        end := i == sLength;
        if !end {
          inByte := SignedChar(s[i]);
        }
      }
    }

    /** How far the string goes: to its first NUL if `sLength` is negative. */
    static ghost predicate Counted(s: seq<Byte>, sLength: int, n: nat) {
      if sLength < 0 then n < |s| && s[n] == 0 && forall k :: 0 <= k < n ==> s[k] != 0 else n == sLength <= |s|
    }

    /**
     Goes on from a position that is not within a linear-match node, with the character
     before `j` of the string: to the end of the string, or into a linear-match node.
     */
    method NodesNext(ghost from: State, s: seq<Byte>, sLength: int, ghost n: nat, j: nat, start: nat, char_: int,
                     ghost node: Node)
      returns (done: bool, r: Result, p: nat, length: int, i: nat)
      requires root.WellFormed() && Encodes(bytes, 0, root) && remainingMatchLength == -1
      requires 0 < j <= n <= |s| && Counted(s, sLength, n) && char_ == SignedChar(s[j - 1])
      requires Encodes(bytes, start, node) && node.WellFormed()
      requires WalkChars(from, s, j) == StepInt(At(node), char_)
      modifies this
      ensures done ==> Valid() && st == WalkChars(from, s, n) && r == Report(st)
      ensures remainingMatchLength == -1
      ensures !done ==>
                j <= i <= n && WalkChars(from, s, i) != Stopped && WalkChars(from, s, i).WellFormed() &&
                Represents(bytes, Some(p), length, WalkChars(from, s, i))
    {
      hide WalkChars, Encodes, EncodesSub, StepSub, StepInt, Represents, BranchAt, Node.WellFormed;
      r, p, length, i := NoMatch, start, -1, j;
      done := true;
      var inByte := char_;
      ghost var nd := node;
      while true
        invariant j <= i <= n && done && inByte == SignedChar(s[i - 1]) && remainingMatchLength == -1
        invariant Encodes(bytes, p, nd) && nd.WellFormed()
        invariant WalkChars(from, s, i) == StepInt(At(nd), inByte)
        decreases n - i, nd
      {
        NodeAt(bytes, p, nd);
        StepIntOf(nd, inByte);
        var lead := bytes[p];
        p := p + 1;
        if lead < MIN_LINEAR_MATCH {
          r := BranchNext(p, lead, inByte, nd.sub);
          if r == NoMatch {
            StaysStopped(from, s, i, n);
            return;
          }
          var end;
          end, inByte := Fetch(s, i, sLength, n);
          if end {
            return;
          }
          AfterBranch(nd.sub, SignedChar(s[i - 1]));
          WalkCharsStep(from, s, i);
          i := i + 1;
          if r == FinalValue {
            // Any further character leads off this node.
            StepIntOf(st.node, inByte);
            StaysStopped(from, s, i, n);
            r := Stop();
            return;
          }
          p, nd := NodePos();
        } else if lead < MIN_VALUE_LEAD {
          done, p, length := EnterLinear(p, lead, inByte, nd);
          if done {
            r := Stop();
            StaysStopped(from, s, i, n);
          }
          return;
        } else if lead % 2 == 1 {
          r := Stop();
          StaysStopped(from, s, i, n);
          return;
        } else {
          p := SkipValue(p, lead);
          nd := nd.next;
        }
      }
    }

    /** The position of the node that the walk is on. */
    method NodePos() returns (p: nat, ghost node: Node)
      requires Valid() && st.At?
      ensures st == At(node) && node.WellFormed() && Encodes(bytes, p, node)
    {
      p, node := pos.value, st.node;
    }

    /** Feeds a whole string to the walk. */
    method NextString(s: seq<Byte>, sLength: int, ghost n: nat) returns (r: Result)
      requires Valid() && Counted(s, sLength, n)
      modifies this
      ensures Valid() && st == WalkChars(old(st), s, n) && r == Report(st)
      ensures StoppedMidway() == (st == Stopped && (old(StoppedMidway()) || StopsMidway(old(st), s, n)))
    {
      hide WalkChars, Encodes, EncodesSub, StepInt, Node.WellFormed;
      ghost var from := st;
      WalkCharsStart(from, s);
      var end, inByte := Fetch(s, 0, sLength, n);
      if end {
        r := Current();
        return;
      }
      if pos == None {
        StaysStopped(from, s, 0, n);
        return NoMatch;
      }
      var p: nat := pos.value;
      var length := remainingMatchLength;
      ghost var cur := st;
      var i := 0;
      while true
        invariant i <= n && cur == WalkChars(from, s, i) && cur.WellFormed() && cur != Stopped
        invariant Represents(bytes, Some(p), length, cur) && remainingMatchLength >= -1
        invariant remainingMatchLength >= 0 <==> from.InLinear? && i <= |from.bytes|
        invariant remainingMatchLength >= 0 ==> length == |from.bytes| - i - 1
        invariant from.InLinear? && |from.bytes| <= i ==> WalkChars(from, s, |from.bytes|) != Stopped
        decreases n - i
      {
        end, inByte := Fetch(s, i, sLength, n);
        if end {
          r := Leave(p, length, cur);
          return;
        }
        WalkCharsStep(from, s, i);
        i := i + 1;
        if length >= 0 {
          if inByte != bytes[p] {
            StepOff(cur, inByte);
            StaysStopped(from, s, i, n);
            if from.InLinear? && i <= |from.bytes| <= n {
              StaysStopped(from, s, i, |from.bytes|);
            }
            r := Stop();
            return;
          }
          RestEncoded(bytes, p, cur, inByte);
          p := p + 1;
          length := length - 1;
          cur := WalkChars(from, s, i);
        } else {
          // From here on the field is -1, also within later linear-match nodes.
          remainingMatchLength := length;
          var done;
          done, r, p, length, i := NodesNext(from, s, sLength, n, i, p, inByte, cur.node);
          if done {
            return;
          }
          cur := WalkChars(from, s, i);
        }
      }
    }
  }
}
